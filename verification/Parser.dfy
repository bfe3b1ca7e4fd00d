/**
 The `when` language: a byte-wise lexer and a recursive-descent parser. The
 lexer reads the UTF-8 bytes of its text one at a time, each as a character.
 */
module Parser {
  import opened Bytes
  import Policy
  import opened Text
  import opened Utf8

  type Field = Policy.Field

  datatype RawOp =
    | Eq(w: string)
    | Ne(w: string)
    | StartsWith(w: string)
    | EndsWith(w: string)
    | Contains(w: string)
    | Matches(w: string)

  datatype RawPredicate = Compare(field: Field, op: RawOp) | In(field: Field, listRef: string)

  datatype RawExpr =
    | Or(a: RawExpr, b: RawExpr)
    | And(a: RawExpr, b: RawExpr)
    | Not(inner: RawExpr)
    | Pred(p: RawPredicate)

  datatype Tok = Ident(s: string) | Str(s: string) | EqEq | NotEq | LParen | RParen

  // ------------------------------------------------------------------
  // Characters: a byte read as a Latin-1 character

  /** The text of an identifier, decoded again from its bytes. */
  function IdentText(word: string): string {
    Lossy(Raw(word))
  }

  predicate IsWs(c: char) {
    '\t' <= c <= '\r' || c == ' ' || c == '\U{85}' || c == '\U{A0}'
  }

  predicate IsAlpha(c: char) {
    || 'A' <= c <= 'Z' || 'a' <= c <= 'z'
    || c == '\U{AA}' || c == '\U{B5}' || c == '\U{BA}'
    || ('\U{C0}' <= c <= '\U{FF}' && c != '\U{D7}' && c != '\U{F7}')
  }

  predicate IsAlnum(c: char) {
    IsAlpha(c) || IsDigit(c) || c == '\U{B2}' || c == '\U{B3}' || c == '\U{B9}' || '\U{BC}' <= c <= '\U{BE}'
  }

  predicate IsWordChar(c: char) {
    IsAlnum(c) || c == '_' || c == '.' || c == '-'
  }

  // ------------------------------------------------------------------
  // Lexing

  function WsLen(s: string): (n: nat)
    ensures n <= |s|
  {
    if s != "" && IsWs(s[0]) then 1 + WsLen(s[1..]) else 0
  }

  function WordLen(s: string): (n: nat)
    ensures n <= |s|
  {
    if s != "" && IsWordChar(s[0]) then 1 + WordLen(s[1..]) else 0
  }

  /** What a backslash followed by `e` stands for. */
  function Unescape(e: char): string {
    if e == '"' then "\""
    else if e == '\\' then "\\"
    else if e == 'n' then "\n"
    else if e == 't' then "\t"
    else if e == 'r' then "\r"
    else ['\\', e]
  }

  /** The literal after its opening quote: its value and how many bytes it takes, closing quote included. */
  function Literal(s: string): (r: Option<(string, nat)>)
    ensures r.Some? ==> 1 <= r.value.1 <= |s|
  {
    if s == "" then None
    else if s[0] == '"' then Some(("", 1))
    else if s[0] == '\\' then
      if |s| < 2 then None
      else
        var rest := Literal(s[2..]);
        if rest.None? then None else Some((Unescape(s[1]) + rest.value.0, rest.value.1 + 2))
    else
      var rest := Literal(s[1..]);
      if rest.None? then None else Some(([s[0]] + rest.value.0, rest.value.1 + 1))
  }

  /** The first token and its length; `None` is a lexical error. */
  function FirstTok(s: string): (r: Option<(Tok, nat)>)
    requires s != ""
    ensures r.Some? ==> 1 <= r.value.1 <= |s|
  {
    if s[0] == '(' then Some((LParen, 1))
    else if s[0] == ')' then Some((RParen, 1))
    else if s[0] == '=' then (if |s| > 1 && s[1] == '=' then Some((EqEq, 2)) else None)
    else if s[0] == '!' then (if |s| > 1 && s[1] == '=' then Some((NotEq, 2)) else None)
    else if s[0] == '"' then
      var lit := Literal(s[1..]);
      if lit.None? then None else Some((Str(lit.value.0), lit.value.1 + 1))
    else if IsAlpha(s[0]) || s[0] == '_' then Some((Ident(IdentText(s[..WordLen(s)])), WordLen(s)))
    else None
  }

  function Lex(s: string): Option<seq<Tok>>
    decreases |s|
  {
    var t := s[WsLen(s)..];
    if t == "" then Some([])
    else
      var first := FirstTok(t);
      if first.None? then None
      else
        var rest := Lex(t[first.value.1..]);
        if rest.None? then None else Some([first.value.0] + rest.value)
  }

  // ------------------------------------------------------------------
  // Parsing

  function FieldFromName(name: string): Field {
    if name == "tool" then Policy.Tool
    else if name == "command" then Policy.Command
    else if name == "path" then Policy.Path
    else if name == "url_host" || name == "url.host" then Policy.UrlHost
    else if name == "query" then Policy.Query
    else if name == "agent" then Policy.Agent
    else if name == "mode" then Policy.Mode
    else if name == "server" then Policy.Server
    else if name == "trust" || name == "server.trust" then Policy.Trust
    else Policy.Unknown
  }

  /** An expression and the tokens after it. */
  datatype Parsed = Fail | Got(e: RawExpr, rest: seq<Tok>)

  predicate Starts(ts: seq<Tok>, kw: string) {
    ts != [] && ts[0] == Ident(kw)
  }

  function MakeOp(op: Tok, value: string): Option<RawOp> {
    match op
    case EqEq => Some(Eq(value))
    case NotEq => Some(Ne(value))
    case Ident(w) =>
      if w == "startswith" then Some(StartsWith(value))
      else if w == "endswith" then Some(EndsWith(value))
      else if w == "contains" then Some(Contains(value))
      else if w == "matches" then Some(Matches(value))
      else None
    case _ => None
  }

  function ParsePredicate(ts: seq<Tok>): (r: Parsed)
    ensures r.Got? ==> |r.rest| < |ts|
  {
    if ts == [] || !ts[0].Ident? then Fail
    else
      var field := FieldFromName(ts[0].s);
      if Starts(ts[1..], "in") then
        if |ts| < 3 || !ts[2].Ident? then Fail else Got(Pred(In(field, ts[2].s)), ts[3..])
      else if |ts| < 3 || !ts[2].Str? then Fail
      else
        var op := MakeOp(ts[1], ts[2].s);
        if op.None? then Fail else Got(Pred(Compare(field, op.value)), ts[3..])
  }

  function ParseUnary(ts: seq<Tok>): (r: Parsed)
    ensures r.Got? ==> |r.rest| < |ts|
    decreases |ts|, 0
  {
    if Starts(ts, "not") then
      var inner := ParseUnary(ts[1..]);
      if inner.Fail? then Fail else Got(Not(inner.e), inner.rest)
    else if ts != [] && ts[0].LParen? then
      var inner := ParseOr(ts[1..]);
      if inner.Fail? || inner.rest == [] || !inner.rest[0].RParen? then Fail else Got(inner.e, inner.rest[1..])
    else ParsePredicate(ts)
  }

  /** The loop after the first operand of `and`. */
  function AndRest(lhs: RawExpr, ts: seq<Tok>): (r: Parsed)
    ensures r.Got? ==> |r.rest| <= |ts|
    decreases |ts|, 1
  {
    if !Starts(ts, "and") then Got(lhs, ts)
    else
      var rhs := ParseUnary(ts[1..]);
      if rhs.Fail? then Fail else AndRest(And(lhs, rhs.e), rhs.rest)
  }

  function ParseAnd(ts: seq<Tok>): (r: Parsed)
    ensures r.Got? ==> |r.rest| < |ts|
    decreases |ts|, 2
  {
    var lhs := ParseUnary(ts);
    if lhs.Fail? then Fail else AndRest(lhs.e, lhs.rest)
  }

  /** The loop after the first operand of `or`. */
  function OrRest(lhs: RawExpr, ts: seq<Tok>): (r: Parsed)
    ensures r.Got? ==> |r.rest| <= |ts|
    decreases |ts|, 3
  {
    if !Starts(ts, "or") then Got(lhs, ts)
    else
      var rhs := ParseAnd(ts[1..]);
      if rhs.Fail? then Fail else OrRest(Or(lhs, rhs.e), rhs.rest)
  }

  function ParseOr(ts: seq<Tok>): (r: Parsed)
    ensures r.Got? ==> |r.rest| < |ts|
    decreases |ts|, 4
  {
    var lhs := ParseAnd(ts);
    if lhs.Fail? then Fail else OrRest(lhs.e, lhs.rest)
  }

  /** `parse_when`: a parse that leaves tokens over is an error. */
  function ParseWhen(src: string): Option<RawExpr> {
    var toks := Lex(AsRead(src));
    if toks.None? || toks.value == [] then None
    else
      var r := ParseOr(toks.value);
      if r.Fail? || r.rest != [] then None else Some(r.e)
  }

  // ------------------------------------------------------------------
  // The imperative lexer and parser

  class Lexer {
    const src: string
    var pos: nat

    constructor (src: string)
      ensures this.src == src && pos == 0
    {
      this.src, pos := src, 0;
    }

    method SkipWs()
      requires pos <= |src|
      modifies this
      ensures pos == old(pos) + WsLen(src[old(pos)..])
    {
      while pos < |src| && IsWs(src[pos])
        invariant old(pos) <= pos <= |src|
        invariant pos + WsLen(src[pos..]) == old(pos) + WsLen(src[old(pos)..])
      {
        assert src[pos..][1..] == src[pos + 1..];
        pos := pos + 1;
      }
    }

    /** The string literal at the quote under the cursor. */
    method ReadString() returns (r: Option<Tok>)
      requires pos < |src|
      modifies this
      ensures var lit := Literal(src[old(pos) + 1..]);
              if lit.None? then r.None?
              else r == Some(Str(lit.value.0)) && pos == old(pos) + 1 + lit.value.1
    {
      var from, out := pos + 1, "";
      var p := from;
      ghost var text := src[from..];
      LiteralStart(text);
      while p < |src| && src[p] != '"'
        invariant from <= p <= |src|
        invariant LiteralSoFar(text, out, p - from, src[p..])
      {
        if src[p] == '\\' && p + 1 >= |src| {
          LiteralEnd(text, out, p - from, src[p..]);
          assert src[p..] == "\\";
          pos := |src|;
          return None;
        }
        LiteralStep(src, from, p, out);
        if src[p] == '\\' {
          out, p := out + Unescape(src[p + 1]), p + 2;
        } else {
          out, p := out + [src[p]], p + 1;
        }
      }
      LiteralEnd(text, out, p - from, src[p..]);
      if p >= |src| {
        pos := p;
        return None;
      }
      pos := p + 1;
      return Some(Str(out));
    }

    method ReadWord() returns (t: Tok)
      requires pos <= |src|
      modifies this
      ensures var n := WordLen(src[old(pos)..]);
              pos == old(pos) + n && t == Ident(IdentText(src[old(pos)..][..n]))
    {
      var start := pos;
      while pos < |src| && IsWordChar(src[pos])
        invariant start <= pos <= |src|
        invariant pos + WordLen(src[pos..]) == start + WordLen(src[start..])
      {
        assert src[pos..][1..] == src[pos + 1..];
        pos := pos + 1;
      }
      assert src[start..pos] == src[start..][..pos - start];
      t := Ident(IdentText(src[start..pos]));
    }

    /** The token under the cursor. */
    method Token() returns (r: Option<Tok>)
      requires pos < |src|
      modifies this
      ensures var first := FirstTok(src[old(pos)..]);
              if first.None? then r.None? else r == Some(first.value.0) && pos == old(pos) + first.value.1 <= |src|
    {
      var c := src[pos];
      ghost var t := src[pos..];
      if c == '(' {
        pos := pos + 1;
        return Some(LParen);
      } else if c == ')' {
        pos := pos + 1;
        return Some(RParen);
      } else if c == '=' || c == '!' {
        if pos + 1 >= |src| || src[pos + 1] != '=' { return None; }
        pos := pos + 2;
        return Some(if c == '=' then EqEq else NotEq);
      } else if c == '"' {
        assert t[1..] == src[pos + 1..];
        r := ReadString();
      } else if IsAlpha(c) || c == '_' {
        var word := ReadWord();
        return Some(word);
      } else {
        return None;
      }
    }

    /** The next token; `Some(None)` at the end, `None` on a lexical error. */
    method Next() returns (r: Option<Option<Tok>>)
      requires pos <= |src|
      modifies this
      ensures var t := src[old(pos)..][WsLen(src[old(pos)..])..];
              if t == "" then r == Some(None) && pos == |src|
              else
                var first := FirstTok(t);
                if first.None? then r.None?
                else r == Some(Some(first.value.0)) && pos <= |src| && src[pos..] == t[first.value.1..]
                     && pos > old(pos)
    {
      SkipWs();
      ghost var t, at := src[pos..], pos;
      TakeDrop(src, old(pos), pos - old(pos));
      if pos >= |src| { return Some(None); }
      var tok := Token();
      if tok.None? { return None; }
      TakeDrop(src, at, pos - at);
      r := Some(tok);
    }
  }

  /** `out` is the value of the literal's first `n` bytes, of which `rest` remains. */
  ghost predicate LiteralSoFar(s: string, out: string, n: nat, rest: string) {
    var whole, more := Literal(s), Literal(rest);
    if more.None? then whole.None? else whole == Some((out + more.value.0, n + more.value.1))
  }

  lemma LiteralStart(s: string)
    ensures LiteralSoFar(s, "", 0, s)
  {
    if Literal(s).Some? {
      assert "" + Literal(s).value.0 == Literal(s).value.0;
    }
  }

  lemma LiteralEnd(s: string, out: string, n: nat, rest: string)
    requires LiteralSoFar(s, out, n, rest)
    ensures rest == "" || rest == "\\" ==> Literal(s) == None
    ensures rest != "" && rest[0] == '"' ==> Literal(s) == Some((out, n + 1))
  {
    assert out + "" == out;
  }

  lemma LiteralStep(src: string, from: nat, pos: nat, out: string)
    requires from <= pos < |src| && src[pos] != '"' && (src[pos] == '\\' ==> pos + 1 < |src|)
    requires LiteralSoFar(src[from..], out, pos - from, src[pos..])
    ensures if src[pos] == '\\'
            then LiteralSoFar(src[from..], out + Unescape(src[pos + 1]), pos + 2 - from, src[pos + 2..])
            else LiteralSoFar(src[from..], out + [src[pos]], pos + 1 - from, src[pos + 1..])
  {
    var s, k := src[pos..], if src[pos] == '\\' then 2 else 1;
    assert s[k..] == src[pos + k..];
    LiteralPiece(src[from..], out, pos - from, s, k, if k == 2 then Unescape(s[1]) else [s[0]]);
  }

  lemma LiteralPiece(whole: string, out: string, n: nat, s: string, k: nat, piece: string)
    requires k <= |s| && LiteralSoFar(whole, out, n, s)
    requires var more := Literal(s[k..]);
             Literal(s) == if more.None? then None else Some((piece + more.value.0, more.value.1 + k))
    ensures LiteralSoFar(whole, out + piece, n + k, s[k..])
  {
    var more := Literal(s[k..]);
    if more.Some? {
      assert out + (piece + more.value.0) == out + piece + more.value.0;
    }
  }

  class Cursor {
    const toks: seq<Tok>
    var pos: nat

    constructor (toks: seq<Tok>)
      ensures this.toks == toks && pos == 0
    {
      this.toks, pos := toks, 0;
    }

    ghost predicate At(rest: seq<Tok>)
      reads this
    {
      pos <= |toks| && toks[pos..] == rest
    }

    /** The result of a parsing method, as the function over the remaining tokens gives it. */
    ghost predicate Did(p: Parsed, r: Option<RawExpr>)
      reads this
    {
      if p.Fail? then r.None? else r == Some(p.e) && At(p.rest)
    }

    method Predicate() returns (r: Option<RawExpr>)
      requires pos <= |toks|
      modifies this
      ensures Did(ParsePredicate(old(toks[pos..])), r)
    {
      ghost var ts := toks[pos..];
      if pos >= |toks| || !toks[pos].Ident? { return None; }
      var field := FieldFromName(toks[pos].s);
      pos := pos + 1;
      assert ts[1..] == toks[pos..];
      if pos < |toks| && toks[pos] == Ident("in") {
        pos := pos + 1;
        if pos >= |toks| || !toks[pos].Ident? { return None; }
        r := Some(Pred(In(field, toks[pos].s)));
      } else {
        if pos + 1 >= |toks| || !toks[pos + 1].Str? { return None; }
        var op := MakeOp(toks[pos], toks[pos + 1].s);
        if op.None? { return None; }
        pos := pos + 1;
        r := Some(Pred(Compare(field, op.value)));
      }
      pos := pos + 1;
      assert ts[3..] == toks[pos..];
    }

    method Unary() returns (r: Option<RawExpr>)
      requires pos <= |toks|
      modifies this
      ensures Did(ParseUnary(old(toks[pos..])), r)
      decreases |toks| - pos, 0
    {
      ghost var ts := toks[pos..];
      if pos < |toks| && toks[pos] == Ident("not") {
        pos := pos + 1;
        assert ts[1..] == toks[pos..];
        var inner := Unary();
        return if inner.None? then None else Some(Not(inner.value));
      }
      if pos < |toks| && toks[pos].LParen? {
        pos := pos + 1;
        assert ts[1..] == toks[pos..];
        r := Disjunction();
        if r.None? { return; }
        if pos >= |toks| || !toks[pos].RParen? { return None; }
        assert toks[pos..][1..] == toks[pos + 1..];
        pos := pos + 1;
        return;
      }
      r := Predicate();
    }

    method Conjunction() returns (r: Option<RawExpr>)
      requires pos <= |toks|
      modifies this
      ensures Did(ParseAnd(old(toks[pos..])), r)
      decreases |toks| - pos, 1
    {
      ghost var ts := toks[pos..];
      r := Unary();
      if r.None? { return; }
      while pos < |toks| && toks[pos] == Ident("and")
        invariant r.Some? && pos <= |toks| && |toks| - pos < |ts|
        invariant ParseAnd(ts) == AndRest(r.value, toks[pos..])
      {
        assert toks[pos..][1..] == toks[pos + 1..];
        pos := pos + 1;
        var rhs := Unary();
        if rhs.None? { return None; }
        r := Some(And(r.value, rhs.value));
      }
    }

    method Disjunction() returns (r: Option<RawExpr>)
      requires pos <= |toks|
      modifies this
      ensures Did(ParseOr(old(toks[pos..])), r)
      decreases |toks| - pos, 2
    {
      ghost var ts := toks[pos..];
      r := Conjunction();
      if r.None? { return; }
      while pos < |toks| && toks[pos] == Ident("or")
        invariant r.Some? && pos <= |toks| && |toks| - pos < |ts|
        invariant ParseOr(ts) == OrRest(r.value, toks[pos..])
      {
        assert toks[pos..][1..] == toks[pos + 1..];
        pos := pos + 1;
        var rhs := Conjunction();
        if rhs.None? { return None; }
        r := Some(Or(r.value, rhs.value));
      }
    }
  }

  method LexAll(src: string) returns (r: Option<seq<Tok>>)
    ensures r == Lex(src)
  {
    var lexer := new Lexer(src);
    var toks: seq<Tok> := [];
    LexStart(src);
    while true
      invariant lexer.src == src && lexer.pos <= |src|
      invariant LexSoFar(src, toks, src[lexer.pos..])
      decreases |src| - lexer.pos
    {
      ghost var rest := src[lexer.pos..];
      var next := lexer.Next();
      if next.None? { return None; }
      LexEnd(src, toks, rest);
      if next.value.None? { return Some(toks); }
      LexStep(src, toks, rest);
      toks := toks + [next.value.value];
    }
  }

  ghost predicate LexSoFar(s: string, toks: seq<Tok>, rest: string) {
    Lex(s) == if Lex(rest).None? then None else Some(toks + Lex(rest).value)
  }

  lemma LexStart(s: string)
    ensures s[0..] == s && LexSoFar(s, [], s[0..])
  {
    assert s[0..] == s;
    if Lex(s).Some? {
      assert [] + Lex(s).value == Lex(s).value;
    }
  }

  lemma LexEnd(s: string, toks: seq<Tok>, rest: string)
    requires LexSoFar(s, toks, rest)
    ensures rest[WsLen(rest)..] == "" ==> Lex(s) == Some(toks)
  {
    assert toks + [] == toks;
  }

  lemma {:induction false} LexStep(s: string, toks: seq<Tok>, rest: string)
    requires LexSoFar(s, toks, rest)
    ensures var t := rest[WsLen(rest)..];
            t != "" && FirstTok(t).Some? ==> LexSoFar(s, toks + [FirstTok(t).value.0], t[FirstTok(t).value.1..])
  {
    var t := rest[WsLen(rest)..];
    if t != "" && FirstTok(t).Some? {
      var tok, more := FirstTok(t).value.0, Lex(t[FirstTok(t).value.1..]);
      if more.Some? {
        assert toks + ([tok] + more.value) == toks + [tok] + more.value;
      }
    }
  }

  /** `parse_when` as written: collect the tokens, then parse them all. */
  method Parse(src: string) returns (r: Option<RawExpr>)
    ensures r == ParseWhen(src)
  {
    var toks := LexAll(AsRead(src));
    if toks.None? || toks.value == [] { return None; }
    var p := new Cursor(toks.value);
    assert p.toks[0..] == p.toks;
    r := p.Disjunction();
    if r.Some? && p.pos != |p.toks| { r := None; }
  }
}
