/**
 A printer for `when` expressions, and what lexing and parsing make of its
 text. Trees come back except for one thing: a string value comes back as the
 lexer read its bytes. So a tree comes back exactly when its string values are
 ASCII and its list references are words.
 */
module Printer {
  import opened Bytes
  import opened Text
  import opened Utf8
  import Policy
  import opened Parser

  // ------------------------------------------------------------------
  // Printing

  function FieldText(f: Field): string {
    match f
    case Tool => "tool"
    case Command => "command"
    case Path => "path"
    case UrlHost => "url_host"
    case Query => "query"
    case Agent => "agent"
    case Mode => "mode"
    case Server => "server"
    case Trust => "trust"
    case Unknown => "unknown"
  }

  function OpTok(op: RawOp): Tok {
    match op
    case Eq(_) => EqEq
    case Ne(_) => NotEq
    case StartsWith(_) => Ident("startswith")
    case EndsWith(_) => Ident("endswith")
    case Contains(_) => Ident("contains")
    case Matches(_) => Ident("matches")
  }

  function PredToks(p: RawPredicate): seq<Tok> {
    match p
    case Compare(f, op) => [Ident(FieldText(f)), OpTok(op), Str(op.w)]
    case In(f, l) => [Ident(FieldText(f)), Ident("in"), Ident(l)]
  }

  /** Where an expression stands: operand of nothing or left of `or`; of `and`; of `not`. */
  datatype Level = OrLevel | AndLevel | UnaryLevel

  /** The tokens of an expression, with parentheses only where precedence or left association need them. */
  function Toks(e: RawExpr, level: Level): seq<Tok>
    decreases e, if NeedsParens(e, level) then 1 else 0
  {
    if NeedsParens(e, level) then [LParen] + Toks(e, OrLevel) + [RParen]
    else match e
      case Or(a, b) => Toks(a, OrLevel) + ([Ident("or")] + Toks(b, AndLevel))
      case And(a, b) => Toks(a, AndLevel) + ([Ident("and")] + Toks(b, UnaryLevel))
      case Not(inner) => [Ident("not")] + Toks(inner, UnaryLevel)
      case Pred(p) => PredToks(p)
  }

  predicate NeedsParens(e: RawExpr, level: Level) {
    match e
    case Or(_, _) => level != OrLevel
    case And(_, _) => level == UnaryLevel
    case _ => false
  }

  function Escape(s: string): string {
    if s == "" then ""
    else (if s[0] == '"' || s[0] == '\\' then ['\\', s[0]] else [s[0]]) + Escape(s[1..])
  }

  /** A token as it is written. */
  function TokText(t: Tok): string {
    match t
    case Ident(s) => s
    case Str(s) => "\"" + Escape(s) + "\""
    case EqEq => "=="
    case NotEq => "!="
    case LParen => "("
    case RParen => ")"
  }

  /** Every token followed by a space. */
  function Spelled(ts: seq<Tok>): string {
    if ts == [] then "" else TokText(ts[0]) + (" " + Spelled(ts[1..]))
  }

  function Print(e: RawExpr): string {
    Spelled(Toks(e, OrLevel))
  }

  // ------------------------------------------------------------------
  // Parsing undoes printing: tokens

  lemma PredicateBack(p: RawPredicate, rest: seq<Tok>)
    ensures ParseUnary(PredToks(p) + rest) == Got(Pred(p), rest)
  {
    var ts := PredToks(p) + rest;
    assert ts[3..] == rest && ts[0] == PredToks(p)[0] && ts[1] == PredToks(p)[1] && ts[2] == PredToks(p)[2];
    assert ts[1..][0] == ts[1];
    FieldBack(p.field);
    match p
    case Compare(f, op) =>
      assert "startswith" != "in" && "endswith" != "in" && "contains" != "in" && "matches" != "in";
      assert MakeOp(OpTok(op), op.w) == Some(op) by { OpBack(op); }
    case In(f, l) =>
  }

  lemma OpBack(op: RawOp)
    ensures MakeOp(OpTok(op), op.w) == Some(op)
  {
    assert "endswith"[0] != "startswith"[0] && "contains"[0] != "startswith"[0] && "contains"[0] != "endswith"[0];
    assert "matches"[0] != "startswith"[0] && "matches"[0] != "endswith"[0] && "matches"[0] != "contains"[0];
  }

  lemma FieldBack(f: Field)
    ensures FieldFromName(FieldText(f)) == f && FieldText(f) != "not"
  {
    var s := FieldText(f);
    assert |s| >= 4;
    assert s[0] == "tool"[0] ==> s[1] == "tool"[1] || s == "trust";
  }

  /** How far down the three spines an expression is, so that their mutual recursion ends. */
  function Rank(e: RawExpr, level: Level): nat {
    match e
    case Or(_, _) => (match level case OrLevel => 0 case AndLevel => 2 case UnaryLevel => 1)
    case And(_, _) => (match level case OrLevel => 1 case AndLevel => 0 case UnaryLevel => 2)
    case _ => (match level case OrLevel => 2 case AndLevel => 1 case UnaryLevel => 0)
  }

  lemma {:induction false} UnaryBack(e: RawExpr, rest: seq<Tok>)
    ensures ParseUnary(Toks(e, UnaryLevel) + rest) == Got(e, rest)
    decreases e, Rank(e, UnaryLevel)
  {
    var ts := Toks(e, UnaryLevel) + rest;
    match e
    case Not(inner) =>
      assert ts[1..] == Toks(inner, UnaryLevel) + rest;
      UnaryBack(inner, rest);
    case Pred(p) => PredicateBack(p, rest);
    case _ =>
      var after := [RParen] + rest;
      assert ts[0] == LParen && ts[1..] == Toks(e, OrLevel) + after;
      OrBack(e, after);
      assert after[1..] == rest;
  }

  /** After an `and`-operand the parser continues with the rest of the conjunction. */
  lemma {:induction false} AndBack(e: RawExpr, rest: seq<Tok>)
    ensures ParseAnd(Toks(e, AndLevel) + rest) == AndRest(e, rest)
    decreases e, Rank(e, AndLevel)
  {
    if e.And? {
      var more := [Ident("and")] + Toks(e.b, UnaryLevel) + rest;
      assert Toks(e, AndLevel) + rest == Toks(e.a, AndLevel) + more;
      AndBack(e.a, more);
      assert more[1..] == Toks(e.b, UnaryLevel) + rest;
      UnaryBack(e.b, rest);
    } else {
      assert Toks(e, AndLevel) == Toks(e, UnaryLevel);
      UnaryBack(e, rest);
    }
  }

  /** After an `or`-operand the parser continues with the rest of the disjunction. */
  lemma {:induction false} OrBack(e: RawExpr, rest: seq<Tok>)
    requires !Starts(rest, "and")
    ensures ParseOr(Toks(e, OrLevel) + rest) == OrRest(e, rest)
    decreases e, Rank(e, OrLevel)
  {
    if e.Or? {
      var more := [Ident("or")] + Toks(e.b, AndLevel) + rest;
      assert Toks(e, OrLevel) + rest == Toks(e.a, OrLevel) + more;
      assert "or"[0] != "and"[0];
      OrBack(e.a, more);
      assert more[1..] == Toks(e.b, AndLevel) + rest;
      AndBack(e.b, rest);
    } else {
      assert Toks(e, OrLevel) == Toks(e, AndLevel);
      AndBack(e, rest);
    }
  }

  // ------------------------------------------------------------------
  // Lexing undoes printing: one token

  /** A text the lexer reads as one word. */
  predicate IsWord(s: string) {
    s != "" && (IsAlpha(s[0]) || s[0] == '_') && forall i :: 0 <= i < |s| ==> IsWordChar(s[i])
  }

  /** A string that is read as one word. */
  predicate IsName(s: string) {
    IsWord(AsRead(s))
  }

  lemma AsciiName(s: string)
    requires IsWord(s) && IsAscii(s)
    ensures IsName(s)
  {
    ReadIff(s);
  }

  /** How many characters a word takes, if something else follows it. */
  lemma {:induction false} WordBack(s: string, rest: string)
    requires (forall i :: 0 <= i < |s| ==> IsWordChar(s[i])) && rest != "" && !IsWordChar(rest[0])
    ensures WordLen(s + rest) == |s|
  {
    var t := s + rest;
    if s == "" {
      assert t == rest;
    } else {
      assert t[1..] == s[1..] + rest;
      WordBack(s[1..], rest);
    }
  }

  lemma {:induction false} LiteralBack(s: string, rest: string)
    ensures Literal(Escape(s) + ("\"" + rest)) == Some((s, |Escape(s)| + 1))
  {
    var tail := "\"" + rest;
    var t := Escape(s) + tail;
    if s == "" {
      assert t[0] == '"';
    } else {
      LiteralBack(s[1..], rest);
      var k := if s[0] == '"' || s[0] == '\\' then 2 else 1;
      assert t[k..] == Escape(s[1..]) + tail;
      assert s == [s[0]] + s[1..];
    }
  }

  lemma {:induction false} EscapePlain(a: string, x: string)
    requires forall i :: 0 <= i < |a| ==> a[i] != '"' && a[i] != '\\'
    ensures Escape(a + x) == a + Escape(x)
  {
    if a == "" {
      assert a + x == x;
    } else {
      assert (a + x)[1..] == a[1..] + x;
      EscapePlain(a[1..], x);
      assert a == [a[0]] + a[1..];
    }
  }

  /** Escaping touches only ASCII, so it does not matter whether it comes before or after reading. */
  lemma {:induction false} EscapeRead(s: string)
    ensures AsRead(Escape(s)) == Escape(AsRead(s))
  {
    if s == "" {
    } else {
      EscapeRead(s[1..]);
      ReadCons(s);
      ReadChar(s[0]);
      var head := if s[0] == '"' || s[0] == '\\' then ['\\', s[0]] else [s[0]];
      ReadConcat(head, Escape(s[1..]));
      if s[0] == '"' || s[0] == '\\' {
        ReadIff(head);
        EscapeCons(s[0], AsRead(s[1..]));
      } else {
        EscapePlain(AsRead([s[0]]), AsRead(s[1..]));
      }
    }
  }

  lemma EscapeCons(c: char, x: string)
    requires c == '"' || c == '\\'
    ensures Escape([c] + x) == ['\\', c] + Escape(x)
  {
    assert ([c] + x)[1..] == x;
  }

  /** A token as its text is read. */
  function Wire(t: Tok): string {
    AsRead(TokText(t))
  }

  /** A token as the lexer understands it: a string value is what was read of it. */
  function Heard(t: Tok): Tok {
    if t.Str? then Str(AsRead(t.s)) else t
  }

  /** Tokens that can be printed: identifiers are names. */
  predicate Printable(t: Tok) {
    t.Ident? ==> IsName(t.s)
  }

  ghost predicate AllPrintable(ts: seq<Tok>) {
    forall i :: 0 <= i < |ts| ==> Printable(ts[i])
  }

  ghost predicate ReadsBack(t: Tok, text: string, rest: string) {
    var s := text + (" " + rest);
    WsLen(s) == 0 && FirstTok(s) == Some((t, |text|)) && s[|text|..] == " " + rest
  }

  lemma TokBack(t: Tok, rest: string)
    requires Printable(t)
    ensures ReadsBack(Heard(t), Wire(t), rest)
  {
    match t
    case Ident(w) => IdentBack(w, rest);
    case Str(v) =>
      StrWire(v);
      StrBack(AsRead(v), rest);
    case _ =>
      ReadIff(TokText(t));
      SymbolBack(t, rest);
  }

  lemma IdentBack(w: string, rest: string)
    requires IsName(w)
    ensures ReadsBack(Ident(w), AsRead(w), rest)
  {
    var word := AsRead(w);
    var s := word + (" " + rest);
    WordBack(word, " " + rest);
    assert s[0] == word[0] && s[..|word|] == word;
    RawLatin1(Encode(w));
    RoundTrip(w);
    LossyDecodes(Encode(w));
  }

  lemma StrWire(v: string)
    ensures Wire(Str(v)) == "\"" + Escape(AsRead(v)) + "\""
  {
    ReadConcat("\"" + Escape(v), "\"");
    ReadConcat("\"", Escape(v));
    ReadIff("\"");
    EscapeRead(v);
  }

  lemma StrBack(v: string, rest: string)
    ensures ReadsBack(Str(v), "\"" + Escape(v) + "\"", rest)
  {
    var s := "\"" + Escape(v) + "\"" + (" " + rest);
    LiteralBack(v, " " + rest);
    StrShape(v, rest);
  }

  lemma StrShape(v: string, rest: string)
    ensures var s := "\"" + Escape(v) + "\"" + (" " + rest);
            s[0] == '"' && s[1..] == Escape(v) + ("\"" + (" " + rest)) && s[|Escape(v)| + 2..] == " " + rest
  {
  }

  lemma SymbolBack(t: Tok, rest: string)
    requires !t.Ident? && !t.Str?
    ensures ReadsBack(t, TokText(t), rest)
  {
    var s := TokText(t) + (" " + rest);
    assert s[0] == TokText(t)[0] && (|TokText(t)| == 2 ==> s[1] == TokText(t)[1]);
  }

  // ------------------------------------------------------------------
  // Lexing undoes printing: all tokens

  /** The printed text as it is read. */
  function Wires(ts: seq<Tok>): string {
    if ts == [] then "" else Wire(ts[0]) + (" " + Wires(ts[1..]))
  }

  lemma {:induction false} SpelledRead(ts: seq<Tok>)
    ensures AsRead(Spelled(ts)) == Wires(ts)
  {
    if ts == [] {
    } else {
      SpelledRead(ts[1..]);
      ReadConcat(TokText(ts[0]), " " + Spelled(ts[1..]));
      ReadConcat(" ", Spelled(ts[1..]));
      ReadIff(" ");
    }
  }

  function HeardAll(ts: seq<Tok>): (r: seq<Tok>)
    ensures |r| == |ts| && forall i :: 0 <= i < |ts| ==> r[i] == Heard(ts[i])
  {
    seq(|ts|, i requires 0 <= i < |ts| => Heard(ts[i]))
  }

  /** White space, then a token, then the tokens after it. */
  lemma LexOne(lead: string, t: string, tok: Tok, n: nat, more: Option<seq<Tok>>)
    requires lead == "" || lead == " "
    requires t != "" && WsLen(t) == 0 && FirstTok(t) == Some((tok, n)) && Lex(t[n..]) == more
    ensures Lex(lead + t) == if more.None? then None else Some([tok] + more.value)
  {
    var s := lead + t;
    assert s[|lead|..] == t;
    assert WsLen(s) == |lead|;
  }

  lemma LexNone(lead: string)
    requires lead == "" || lead == " "
    ensures Lex(lead) == Some([])
  {
    assert WsLen(lead) == |lead|;
  }

  /** A printed token at the front. */
  lemma LexTok(lead: string, t: Tok, rest: string, more: Option<seq<Tok>>)
    requires lead == "" || lead == " "
    requires Printable(t) && Lex(" " + rest) == more
    ensures Lex(lead + (Wire(t) + (" " + rest))) == if more.None? then None else Some([Heard(t)] + more.value)
  {
    TokBack(t, rest);
    LexOne(lead, Wire(t) + (" " + rest), Heard(t), |Wire(t)|, more);
  }

  /** Lexing printed tokens gives them back as they are heard. */
  lemma {:induction false} LexBack(ts: seq<Tok>, lead: string)
    requires AllPrintable(ts) && (lead == "" || lead == " ")
    ensures Lex(lead + Wires(ts)) == Some(HeardAll(ts))
    decreases |ts|
  {
    if ts == [] {
      assert lead + Wires(ts) == lead;
      LexNone(lead);
    } else {
      LexBack(ts[1..], " ");
      LexTok(lead, ts[0], Wires(ts[1..]), Some(HeardAll(ts[1..])));
      HeardCons(ts);
    }
  }

  lemma HeardCons(ts: seq<Tok>)
    requires ts != []
    ensures HeardAll(ts) == [Heard(ts[0])] + HeardAll(ts[1..])
  {
  }

  // ------------------------------------------------------------------
  // What comes back

  predicate Anything(s: string) {
    true
  }

  /** Every list reference satisfies `ref`, every string value `val`. */
  ghost predicate Holds(e: RawExpr, ref: string -> bool, val: string -> bool) {
    match e
    case Or(a, b) => Holds(a, ref, val) && Holds(b, ref, val)
    case And(a, b) => Holds(a, ref, val) && Holds(b, ref, val)
    case Not(inner) => Holds(inner, ref, val)
    case Pred(Compare(_, op)) => val(op.w)
    case Pred(In(_, l)) => ref(l)
  }

  ghost predicate TokHolds(t: Tok, ref: string -> bool, val: string -> bool) {
    (t.Ident? ==> ref(t.s)) && (t.Str? ==> val(t.s))
  }

  ghost predicate AllHold(ts: seq<Tok>, ref: string -> bool, val: string -> bool) {
    forall i :: 0 <= i < |ts| ==> TokHolds(ts[i], ref, val)
  }

  /** List references are names. */
  ghost predicate Writable(e: RawExpr) {
    Holds(e, IsName, Anything)
  }

  /** String values are ASCII. */
  ghost predicate AsciiValues(e: RawExpr) {
    Holds(e, Anything, IsAscii)
  }

  function HeardOp(op: RawOp): RawOp {
    op.(w := AsRead(op.w))
  }

  /** The tree with every string value as it is read. */
  function HeardTree(e: RawExpr): RawExpr {
    match e
    case Or(a, b) => Or(HeardTree(a), HeardTree(b))
    case And(a, b) => And(HeardTree(a), HeardTree(b))
    case Not(inner) => Not(HeardTree(inner))
    case Pred(Compare(f, op)) => Pred(Compare(f, HeardOp(op)))
    case Pred(In(f, l)) => e
  }

  lemma {:induction false} HeardIff(e: RawExpr)
    ensures HeardTree(e) == e <==> AsciiValues(e)
  {
    match e
    case Or(a, b) =>
      HeardIff(a);
      HeardIff(b);
    case And(a, b) =>
      HeardIff(a);
      HeardIff(b);
    case Not(inner) => HeardIff(inner);
    case Pred(Compare(f, op)) =>
      ReadIff(op.w);
      assert HeardOp(op) == op <==> AsRead(op.w) == op.w;
    case Pred(In(f, l)) =>
  }

  lemma HeardConcat(a: seq<Tok>, b: seq<Tok>)
    ensures HeardAll(a + b) == HeardAll(a) + HeardAll(b)
  {
  }

  lemma HeardWord(w: string, b: seq<Tok>)
    ensures HeardAll([Ident(w)] + b) == [Ident(w)] + HeardAll(b)
  {
    HeardConcat([Ident(w)], b);
    assert HeardAll([Ident(w)]) == [Ident(w)];
  }

  lemma HeardJoined(a: seq<Tok>, w: string, b: seq<Tok>)
    ensures HeardAll(a + ([Ident(w)] + b)) == HeardAll(a) + ([Ident(w)] + HeardAll(b))
  {
    HeardConcat(a, [Ident(w)] + b);
    HeardWord(w, b);
  }

  lemma HeardParens(a: seq<Tok>)
    ensures HeardAll([LParen] + a + [RParen]) == [LParen] + HeardAll(a) + [RParen]
  {
  }

  /** Hearing the tokens of a tree is hearing the tree. */
  lemma {:induction false} HeardToks(e: RawExpr, level: Level)
    ensures HeardAll(Toks(e, level)) == Toks(HeardTree(e), level)
    decreases e, if NeedsParens(e, level) then 1 else 0
  {
    if NeedsParens(e, level) {
      HeardToks(e, OrLevel);
      HeardParens(Toks(e, OrLevel));
    } else {
      match e
      case Or(a, b) =>
        HeardToks(a, OrLevel);
        HeardToks(b, AndLevel);
        HeardJoined(Toks(a, OrLevel), "or", Toks(b, AndLevel));
      case And(a, b) =>
        HeardToks(a, AndLevel);
        HeardToks(b, UnaryLevel);
        HeardJoined(Toks(a, AndLevel), "and", Toks(b, UnaryLevel));
      case Not(inner) =>
        HeardToks(inner, UnaryLevel);
        HeardWord("not", Toks(inner, UnaryLevel));
      case Pred(p) => HeardPred(p);
    }
  }

  lemma HeardPred(p: RawPredicate)
    ensures HeardAll(PredToks(p)) == Toks(HeardTree(Pred(p)), OrLevel)
  {
    match p
    case Compare(f, op) =>
      assert HeardAll(PredToks(p)) == [Ident(FieldText(f)), OpTok(op), Str(AsRead(op.w))];
    case In(f, l) =>
      assert HeardAll(PredToks(p)) == PredToks(p);
  }

  /** Lower-case words are names. */
  predicate IsLower(s: string) {
    s != "" && forall i :: 0 <= i < |s| ==> 'a' <= s[i] <= 'z' || s[i] == '_'
  }

  lemma LowerName(s: string)
    requires IsLower(s)
    ensures IsName(s)
  {
    AsciiName(s);
  }

  /** What holds of the list references and of all lower-case words holds of all identifiers of a tree. */
  lemma {:induction false} ToksHold(e: RawExpr, level: Level, ref: string -> bool)
    requires Holds(e, ref, Anything) && forall s {:trigger ref(s)} :: IsLower(s) ==> ref(s)
    ensures AllHold(Toks(e, level), ref, Anything)
    decreases e, if NeedsParens(e, level) then 1 else 0
  {
    if NeedsParens(e, level) {
      ToksHold(e, OrLevel, ref);
    } else {
      match e
      case Or(a, b) =>
        ToksHold(a, OrLevel, ref);
        ToksHold(b, AndLevel, ref);
        assert ref("or");
      case And(a, b) =>
        ToksHold(a, AndLevel, ref);
        ToksHold(b, UnaryLevel, ref);
        assert ref("and");
      case Not(inner) =>
        ToksHold(inner, UnaryLevel, ref);
        assert ref("not");
      case Pred(p) => PredHolds(p, ref);
    }
  }

  lemma PredHolds(p: RawPredicate, ref: string -> bool)
    requires (p.In? ==> ref(p.listRef)) && forall s {:trigger ref(s)} :: IsLower(s) ==> ref(s)
    ensures AllHold(PredToks(p), ref, Anything)
  {
    FieldIsLower(p.field);
    assert ref(FieldText(p.field));
    match p
    case Compare(f, op) =>
      if OpTok(op).Ident? { assert ref(OpTok(op).s); }
    case In(f, l) => assert ref("in");
  }

  lemma FieldIsLower(f: Field)
    ensures IsLower(FieldText(f))
  {
  }

  lemma ToksPrintable(e: RawExpr)
    requires Writable(e)
    ensures AllPrintable(Toks(e, OrLevel))
  {
    forall s | IsLower(s) ensures IsName(s) {
      LowerName(s);
    }
    ToksHold(e, OrLevel, IsName);
    var ts := Toks(e, OrLevel);
    assert forall i :: 0 <= i < |ts| && TokHolds(ts[i], IsName, Anything) ==> Printable(ts[i]);
  }

  /** Printing, then lexing and parsing, gives the tree with its string values as read. */
  lemma PrintParse(e: RawExpr)
    requires Writable(e)
    ensures ParseWhen(Print(e)) == Some(HeardTree(e))
  {
    var ts, back := Toks(e, OrLevel), Toks(HeardTree(e), OrLevel);
    ToksPrintable(e);
    SpelledRead(ts);
    LexBack(ts, "");
    assert "" + Wires(ts) == Wires(ts);
    HeardToks(e, OrLevel);
    OrBack(HeardTree(e), []);
    assert back + [] == back;
    OrNonEmpty(HeardTree(e), OrLevel);
  }

  lemma {:induction false} OrNonEmpty(e: RawExpr, level: Level)
    ensures Toks(e, level) != []
  {
  }

  lemma PrintEq(f: Field, v: string)
    ensures ParseWhen(Print(Pred(Compare(f, Eq(v))))) == Some(Pred(Compare(f, Eq(AsRead(v)))))
  {
    PrintParse(Pred(Compare(f, Eq(v))));
  }

  lemma ReadAccent(v: string)
    requires |v| == 1 && v[0] == '\U{E9}'
    ensures |AsRead(v)| == 2 && AsRead(v)[0] == '\U{C3}' && AsRead(v)[1] == '\U{A9}'
  {
    ReadCons(v);
    assert v[1..] == "" && AsRead("") == "";
  }

  /** An instance: the accented letter in `tool == "\u{e9}"` comes back as two characters. */
  lemma AccentIsLost()
    ensures ParseWhen(Print(Pred(Compare(Policy.Tool, Eq("\U{E9}"))))) ==
            Some(Pred(Compare(Policy.Tool, Eq("\U{C3}\U{A9}"))))
  {
    AccentSplits("\U{E9}");
  }

  lemma AccentSplits(v: string)
    requires |v| == 1 && v[0] == '\U{E9}'
    ensures ParseWhen(Print(Pred(Compare(Policy.Tool, Eq(v))))) ==
            Some(Pred(Compare(Policy.Tool, Eq(['\U{C3}', '\U{A9}']))))
  {
    PrintEq(Policy.Tool, v);
    ReadAccent(v);
    assert AsRead(v) == ['\U{C3}', '\U{A9}'];
  }

  // ------------------------------------------------------------------
  // References that do not come back

  /** What an identifier token can be. */
  ghost predicate FromWord(l: string) {
    exists w :: IsWord(w) && l == IdentText(w)
  }

  lemma NameFromWord(l: string)
    requires IsName(l)
    ensures FromWord(l)
  {
    RawLatin1(Encode(l));
    RoundTrip(l);
    LossyDecodes(Encode(l));
    assert l == IdentText(AsRead(l));
  }

  /** What is read before the first byte that cannot be decoded, if there is one. */
  function BadAt(b: Bytes): Option<string>
    decreases |b|
  {
    if b == [] then None
    else
      var first := DecodeChar(b);
      if first.None? then Some("")
      else
        var n := first.value.1;
        var rest := BadAt(b[n..]);
        if rest.None? then None else Some(Latin1(b[..n]) + rest.value)
  }

  const BAD := "\U{EF}\U{BF}\U{BD}"

  lemma BadIs()
    ensures AsRead([REPLACEMENT]) == BAD
  {
    ReadCons([REPLACEMENT]);
    assert [REPLACEMENT][1..] == "" && AsRead("") == "";
  }

  /** Reading undoes lossy decoding up to the first byte that could not be decoded. */
  lemma {:induction false} LossyRead(b: Bytes)
    ensures BadAt(b).None? ==> AsRead(Lossy(b)) == Latin1(b)
    ensures BadAt(b).Some? ==> BadAt(b).value + BAD <= AsRead(Lossy(b)) && BadAt(b).value <= Latin1(b)
    decreases |b|
  {
    if b == [] {
    } else if DecodeChar(b).None? {
      var s := Lossy(b);
      ReadCons(s);
      assert [s[0]] == [REPLACEMENT];
      BadIs();
    } else {
      var (c, n) := DecodeChar(b).value;
      var s, rest := Lossy(b), b[n..];
      LossyRead(rest);
      EncodeDecodedChar(b);
      ReadCons(s);
      assert [s[0]] == [c] && s[1..] == Lossy(rest);
      CutInTwo(b, n);
      Latin1Concat(b[..n], rest);
      if BadAt(rest).Some? {
        PrefixConcat(Latin1(b[..n]), BadAt(rest).value, BAD, AsRead(Lossy(rest)), Latin1(rest));
      }
    }
  }

  lemma PrefixConcat(a: string, p: string, bad: string, x: string, y: string)
    requires p + bad <= x && p <= y
    ensures a + p + bad <= a + x && a + p <= a + y
  {
    assert a + p + bad == a + (p + bad);
  }

  lemma WordIsRaw(w: string)
    requires IsWord(w)
    ensures Latin1(Raw(w)) == w
  {
    assert forall c :: IsWordChar(c) ==> c as int < 256;
  }

  /** A reference that is no name has a byte in it that stops the lexer. */
  lemma BadRef(l: string, lead: string, rest: string)
    requires FromWord(l) && !IsName(l) && (lead == "" || lead == " ")
    ensures Lex(lead + (AsRead(l) + (" " + rest))) == None
  {
    var w :| IsWord(w) && l == IdentText(w);
    WordIsRaw(w);
    LossyRead(Raw(w));
    var p, r := BadAt(Raw(w)).value, AsRead(l);
    BadInside(p, r, " " + rest);
    StopsLexing(w, p, r[|p| + 3..] + (" " + rest), lead);
  }

  lemma BadInside(p: string, r: string, rest: string)
    requires p + BAD <= r
    ensures r + rest == p + (BAD + (r[|p| + 3..] + rest))
  {
    assert r == p + BAD + r[|p| + 3..];
  }

  lemma StopsLexing(w: string, p: string, rest: string, lead: string)
    requires IsWord(w) && p <= w && (lead == "" || lead == " ")
    ensures Lex(lead + (p + (BAD + rest))) == None
  {
    var t, word, tail := p + (BAD + rest), p + "\U{EF}", "\U{BF}\U{BD}" + rest;
    assert t == word + tail;
    assert forall i :: 0 <= i < |p| ==> p[i] == w[i];
    WordBack(word, tail);
    assert t[0] == word[0] && (IsAlpha(t[0]) || t[0] == '_');
    assert t[|word|..] == tail;
    NothingStarts(tail);
    LexOne(lead, t, Ident(IdentText(t[..|word|])), |word|, None);
  }

  lemma NothingStarts(tail: string)
    requires tail != "" && tail[0] == '\U{BF}'
    ensures Lex(tail) == None
  {
    assert WsLen(tail) == 0 && tail[0..] == tail;
  }

  lemma {:induction false} LexFails(ts: seq<Tok>, lead: string)
    requires AllHold(ts, FromWord, Anything) && !AllPrintable(ts) && (lead == "" || lead == " ")
    ensures Lex(lead + Wires(ts)) == None
    decreases |ts|
  {
    var rest := ts[1..];
    if Printable(ts[0]) {
      assert exists i :: 0 <= i < |ts| && !Printable(ts[i]);
      var i :| 0 <= i < |ts| && !Printable(ts[i]);
      assert rest[i - 1] == ts[i];
      LexFails(rest, " ");
      LexTok(lead, ts[0], Wires(rest), None);
    } else {
      assert TokHolds(ts[0], FromWord, Anything);
      BadRef(ts[0].s, lead, Wires(rest));
    }
  }

  // ------------------------------------------------------------------
  // What parsing can yield

  /** The tree and the tokens left over hold what the tokens held. */
  ghost predicate Leaves(r: Parsed, ref: string -> bool, val: string -> bool) {
    r.Got? ==> Holds(r.e, ref, val) && AllHold(r.rest, ref, val)
  }

  lemma PredicateHolds(ts: seq<Tok>, ref: string -> bool, val: string -> bool)
    requires AllHold(ts, ref, val)
    ensures Leaves(ParsePredicate(ts), ref, val)
  {
    if |ts| >= 3 {
      assert TokHolds(ts[2], ref, val);
    }
  }

  lemma {:induction false} UnaryHolds(ts: seq<Tok>, ref: string -> bool, val: string -> bool)
    requires AllHold(ts, ref, val)
    ensures Leaves(ParseUnary(ts), ref, val)
    decreases |ts|, 0
  {
    if Starts(ts, "not") {
      UnaryHolds(ts[1..], ref, val);
    } else if ts != [] && ts[0].LParen? {
      OrHolds(ts[1..], ref, val);
    } else {
      PredicateHolds(ts, ref, val);
    }
  }

  lemma {:induction false} AndRestHolds(lhs: RawExpr, ts: seq<Tok>, ref: string -> bool, val: string -> bool)
    requires AllHold(ts, ref, val) && Holds(lhs, ref, val)
    ensures Leaves(AndRest(lhs, ts), ref, val)
    decreases |ts|, 1
  {
    if !Starts(ts, "and") {
    } else {
      UnaryHolds(ts[1..], ref, val);
      var rhs := ParseUnary(ts[1..]);
      if rhs.Got? {
        AndRestHolds(And(lhs, rhs.e), rhs.rest, ref, val);
      }
    }
  }

  lemma {:induction false} AndHolds(ts: seq<Tok>, ref: string -> bool, val: string -> bool)
    requires AllHold(ts, ref, val)
    ensures Leaves(ParseAnd(ts), ref, val)
    decreases |ts|, 2
  {
    UnaryHolds(ts, ref, val);
    var lhs := ParseUnary(ts);
    if lhs.Got? {
      AndRestHolds(lhs.e, lhs.rest, ref, val);
    }
  }

  lemma {:induction false} OrRestHolds(lhs: RawExpr, ts: seq<Tok>, ref: string -> bool, val: string -> bool)
    requires AllHold(ts, ref, val) && Holds(lhs, ref, val)
    ensures Leaves(OrRest(lhs, ts), ref, val)
    decreases |ts|, 3
  {
    if !Starts(ts, "or") {
    } else {
      AndHolds(ts[1..], ref, val);
      var rhs := ParseAnd(ts[1..]);
      if rhs.Got? {
        OrRestHolds(Or(lhs, rhs.e), rhs.rest, ref, val);
      }
    }
  }

  lemma {:induction false} OrHolds(ts: seq<Tok>, ref: string -> bool, val: string -> bool)
    requires AllHold(ts, ref, val)
    ensures Leaves(ParseOr(ts), ref, val)
    decreases |ts|, 4
  {
    AndHolds(ts, ref, val);
    var lhs := ParseAnd(ts);
    if lhs.Got? {
      OrRestHolds(lhs.e, lhs.rest, ref, val);
    }
  }

  lemma {:induction false} WordIsWord(s: string, i: nat)
    requires i < WordLen(s)
    ensures IsWordChar(s[i])
  {
    if i == 0 {
    } else {
      WordIsWord(s[1..], i - 1);
    }
  }

  /** An identifier token comes from a word. */
  lemma FirstIsWord(s: string)
    requires s != "" && FirstTok(s).Some? && FirstTok(s).value.0.Ident?
    ensures IsWord(s[..WordLen(s)]) && FirstTok(s).value.0.s == IdentText(s[..WordLen(s)])
  {
    forall i | 0 <= i < WordLen(s) ensures IsWordChar(s[i]) {
      WordIsWord(s, i);
    }
  }

  lemma FirstFromWord(s: string)
    requires s != "" && FirstTok(s).Some?
    ensures TokHolds(FirstTok(s).value.0, FromWord, Anything)
  {
    if FirstTok(s).value.0.Ident? {
      FirstIsWord(s);
    }
  }

  lemma {:induction false} LexFromWord(s: string)
    requires Lex(s).Some?
    ensures AllHold(Lex(s).value, FromWord, Anything)
    decreases |s|
  {
    var t := s[WsLen(s)..];
    if t == "" {
    } else {
      FirstFromWord(t);
      LexFromWord(t[FirstTok(t).value.1..]);
    }
  }

  /** Every list reference of a parsed tree is an identifier the lexer can produce. */
  lemma ParsedFromWord(src: string)
    requires ParseWhen(src).Some?
    ensures Holds(ParseWhen(src).value, FromWord, Anything)
  {
    LexFromWord(AsRead(src));
    OrHolds(Lex(AsRead(src)).value, FromWord, Anything);
  }

  lemma {:induction false} PrintableWritable(e: RawExpr, level: Level)
    requires AllPrintable(Toks(e, level))
    ensures Writable(e)
    decreases e, if NeedsParens(e, level) then 1 else 0
  {
    if NeedsParens(e, level) {
      PrintableParts([LParen] + Toks(e, OrLevel), [RParen]);
      PrintableParts([LParen], Toks(e, OrLevel));
      PrintableWritable(e, OrLevel);
    } else {
      match e
      case Or(a, b) =>
        PrintableParts(Toks(a, OrLevel), [Ident("or")] + Toks(b, AndLevel));
        PrintableParts([Ident("or")], Toks(b, AndLevel));
        PrintableWritable(a, OrLevel);
        PrintableWritable(b, AndLevel);
      case And(a, b) =>
        PrintableParts(Toks(a, AndLevel), [Ident("and")] + Toks(b, UnaryLevel));
        PrintableParts([Ident("and")], Toks(b, UnaryLevel));
        PrintableWritable(a, AndLevel);
        PrintableWritable(b, UnaryLevel);
      case Not(inner) =>
        PrintableParts([Ident("not")], Toks(inner, UnaryLevel));
        PrintableWritable(inner, UnaryLevel);
      case Pred(Compare(_, _)) =>
      case Pred(In(f, l)) => assert Printable(Toks(e, level)[2]);
    }
  }

  lemma PrintableParts(a: seq<Tok>, b: seq<Tok>)
    requires AllPrintable(a + b)
    ensures AllPrintable(a) && AllPrintable(b)
  {
    assert forall i :: 0 <= i < |a| ==> (a + b)[i] == a[i];
    assert forall i :: 0 <= i < |b| ==> (a + b)[|a| + i] == b[i];
  }

  lemma UnwritableFails(e: RawExpr)
    requires Holds(e, FromWord, Anything) && !Writable(e)
    ensures ParseWhen(Print(e)) == None
  {
    var ts := Toks(e, OrLevel);
    forall s | IsLower(s) ensures FromWord(s) {
      LowerName(s);
      NameFromWord(s);
    }
    ToksHold(e, OrLevel, FromWord);
    if AllPrintable(ts) {
      PrintableWritable(e, OrLevel);
    }
    LexFails(ts, "");
    SpelledRead(ts);
    assert "" + Wires(ts) == Wires(ts);
  }

  /**
   Parsing undoes printing on a tree exactly when its string values are ASCII
   and its list references are names.
   */
  lemma PrintParseIff(e: RawExpr)
    ensures ParseWhen(Print(e)) == Some(e) <==> Writable(e) && AsciiValues(e)
  {
    if Writable(e) {
      PrintParse(e);
      HeardIff(e);
    } else if Holds(e, FromWord, Anything) {
      UnwritableFails(e);
    } else if ParseWhen(Print(e)).Some? {
      ParsedFromWord(Print(e));
    }
  }

  // ------------------------------------------------------------------
  // ASCII sources

  lemma {:induction false} LiteralAscii(s: string)
    requires IsAscii(s) && Literal(s).Some?
    ensures IsAscii(Literal(s).value.0)
    decreases |s|
  {
    if s[0] == '"' {
    } else if s[0] == '\\' {
      assert IsAscii(s[2..]);
      LiteralAscii(s[2..]);
    } else {
      assert IsAscii(s[1..]);
      LiteralAscii(s[1..]);
    }
  }

  lemma FirstAscii(s: string)
    requires IsAscii(s) && s != "" && FirstTok(s).Some?
    ensures TokHolds(FirstTok(s).value.0, IsName, IsAscii)
  {
    var t := FirstTok(s).value.0;
    if t.Ident? {
      FirstIsWord(s);
      AsciiIdent(s[..WordLen(s)]);
    } else if t.Str? {
      assert IsAscii(s[1..]);
      LiteralAscii(s[1..]);
    }
  }

  lemma AsciiIdent(w: string)
    requires IsWord(w) && IsAscii(w)
    ensures IdentText(w) == w && IsName(w)
  {
    ReadIff(w);
    RawLatin1(Encode(w));
    RoundTrip(w);
    LossyDecodes(Encode(w));
  }

  lemma {:induction false} LexAscii(s: string)
    requires IsAscii(s) && Lex(s).Some?
    ensures AllHold(Lex(s).value, IsName, IsAscii)
    decreases |s|
  {
    var t := s[WsLen(s)..];
    if t == "" {
    } else {
      assert IsAscii(t) && IsAscii(t[FirstTok(t).value.1..]);
      FirstAscii(t);
      LexAscii(t[FirstTok(t).value.1..]);
    }
  }

  lemma {:induction false} HoldsBoth(e: RawExpr)
    requires Holds(e, IsName, IsAscii)
    ensures Writable(e) && AsciiValues(e)
  {
    match e
    case Or(a, b) =>
      HoldsBoth(a);
      HoldsBoth(b);
    case And(a, b) =>
      HoldsBoth(a);
      HoldsBoth(b);
    case Not(inner) => HoldsBoth(inner);
    case Pred(Compare(_, _)) =>
    case Pred(In(_, _)) =>
  }

  /** For every ASCII text that parses, printing its tree gives a text of the same tree. */
  lemma ParsePrint(src: string)
    requires IsAscii(src) && ParseWhen(src).Some?
    ensures ParseWhen(Print(ParseWhen(src).value)) == ParseWhen(src)
  {
    var e := ParseWhen(src).value;
    ReadIff(src);
    LexAscii(src);
    OrHolds(Lex(src).value, IsName, IsAscii);
    HoldsBoth(e);
    PrintParseIff(e);
  }
}
