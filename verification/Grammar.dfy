/**
 The `when` language itself: which texts are written in it, and what they say.

 A text is words, symbols and string literals with any white space between
 them. A literal is written character by character, each plain or escaped. The
 tokens stand in the grammar `or` < `and` < `not`, with parentheses anywhere
 and several names for some fields.

 The lexer and the parser together accept exactly these texts, and give each
 the tree it says.
 */
module Grammar {
  import opened Bytes
  import opened Text
  import opened Utf8
  import Policy
  import opened Parser
  import Printer

  // ------------------------------------------------------------------
  // Texts

  /** One character of a literal as it is written: itself, or any character behind a backslash. */
  datatype Unit = Plain(c: char) | Escaped(e: char)

  datatype Piece = Word(w: string) | Literally(units: seq<Unit>) | Equal | Unequal | Open | Close

  /** A piece and the white space in front of it. */
  datatype Spaced = Spaced(gap: string, piece: Piece)

  function UnitText(u: Unit): string {
    match u
    case Plain(c) => [c]
    case Escaped(e) => ['\\', e]
  }

  /**
   What the character stands for: `\"` and `\\` for a quote and a backslash,
   `\n`, `\t` and `\r` for newline, tab and carriage return; a backslash in
   front of anything else stays there, for regular expressions.
   */
  function UnitValue(u: Unit): string {
    match u
    case Plain(c) => [c]
    case Escaped(e) =>
      if e == '"' || e == '\\' then [e]
      else if e == 'n' then [10 as char]
      else if e == 't' then [9 as char]
      else if e == 'r' then [13 as char]
      else ['\\', e]
  }

  function UnitsText(us: seq<Unit>): string {
    if us == [] then "" else UnitText(us[0]) + UnitsText(us[1..])
  }

  function UnitsValue(us: seq<Unit>): string {
    if us == [] then "" else UnitValue(us[0]) + UnitsValue(us[1..])
  }

  /** A quote or a backslash has to be escaped. */
  predicate UnitOk(u: Unit) {
    u.Plain? ==> u.c != '"' && u.c != '\\'
  }

  ghost predicate UnitsOk(us: seq<Unit>) {
    forall i :: 0 <= i < |us| ==> UnitOk(us[i])
  }

  predicate AsciiLetter(c: char) {
    65 <= c as int <= 90 || 97 <= c as int <= 122
  }

  /** In ASCII, a word is a letter or underscore and then letters, digits, underscores, dots and hyphens. */
  lemma AsciiWord(w: string)
    requires IsAscii(w)
    ensures Printer.IsWord(w) <==>
            && w != "" && (AsciiLetter(w[0]) || w[0] == '_')
            && forall i :: 0 <= i < |w| ==>
                 AsciiLetter(w[i]) || 48 <= w[i] as int <= 57 || w[i] == '_' || w[i] == '.' || w[i] == '-'
  {
    assert forall i :: 0 <= i < |w| ==> w[i] as int < 0x80;
  }

  function PieceText(p: Piece): string {
    match p
    case Word(w) => w
    case Literally(us) => "\"" + UnitsText(us) + "\""
    case Equal => "=="
    case Unequal => "!="
    case Open => "("
    case Close => ")"
  }

  function PieceTok(p: Piece): Tok {
    match p
    case Word(w) => Ident(IdentText(w))
    case Literally(us) => Str(UnitsValue(us))
    case Equal => EqEq
    case Unequal => NotEq
    case Open => LParen
    case Close => RParen
  }

  ghost predicate PieceOk(p: Piece) {
    match p
    case Word(w) => Printer.IsWord(w)
    case Literally(us) => UnitsOk(us)
    case _ => true
  }

  /** Tab to carriage return, space, next line, no-break space. */
  ghost predicate Blank(s: string) {
    forall i :: 0 <= i < |s| ==> 9 <= s[i] as int <= 13 || s[i] as int in {32, 0x85, 0xA0}
  }

  function TextOf(ps: seq<Spaced>, end: string): string {
    if ps == [] then end else ps[0].gap + (PieceText(ps[0].piece) + TextOf(ps[1..], end))
  }

  function ToksOf(ps: seq<Spaced>): (ts: seq<Tok>)
    ensures |ts| == |ps| && forall i :: 0 <= i < |ps| ==> ts[i] == PieceTok(ps[i].piece)
  {
    seq(|ps|, i requires 0 <= i < |ps| => PieceTok(ps[i].piece))
  }

  /** Two words need white space between them, nothing else does. */
  ghost predicate Separate(ps: seq<Spaced>) {
    forall i :: 0 < i < |ps| && ps[i].gap == "" ==> !(ps[i - 1].piece.Word? && ps[i].piece.Word?)
  }

  ghost predicate Pieces(ps: seq<Spaced>, end: string) {
    && (forall i :: 0 <= i < |ps| ==> Blank(ps[i].gap) && PieceOk(ps[i].piece))
    && Separate(ps) && Blank(end)
  }

  // ------------------------------------------------------------------
  // Lexing

  /** One plain character in front of a literal. */
  lemma PlainReads(s: string, more: string)
    requires s != "" && UnitOk(Plain(s[0])) && s[1..] == more
    ensures Literal(s) == if Literal(more).None? then None
                          else Some(([s[0]] + Literal(more).value.0, Literal(more).value.1 + 1))
  {
  }

  /** One escaped character in front of a literal. */
  lemma EscapedReads(s: string, more: string)
    requires |s| >= 2 && s[0] == '\\' && s[2..] == more
    ensures Literal(s) == if Literal(more).None? then None
                          else Some((UnitValue(Escaped(s[1])) + Literal(more).value.0, Literal(more).value.1 + 2))
  {
    assert Unescape(s[1]) == UnitValue(Escaped(s[1]));
  }

  lemma {:induction false} LiteralReads(us: seq<Unit>, rest: string)
    requires UnitsOk(us)
    ensures Literal(UnitsText(us) + ("\"" + rest)) == Some((UnitsValue(us), |UnitsText(us)| + 1))
  {
    if us == [] {
      LiteralEnds("\"" + rest);
      assert UnitsText(us) + ("\"" + rest) == "\"" + rest;
    } else {
      LiteralReads(us[1..], rest);
      var more := UnitsText(us[1..]) + ("\"" + rest);
      Regroup(UnitText(us[0]), UnitsText(us[1..]), "\"" + rest);
      UnitInFront(us[0], more);
      if us[0].Plain? {
        PlainReads(UnitText(us[0]) + more, more);
      } else {
        EscapedReads(UnitText(us[0]) + more, more);
      }
    }
  }

  lemma LiteralEnds(s: string)
    requires s != "" && s[0] == '"'
    ensures Literal(s) == Some(("", 1))
  {
  }

  lemma UnitInFront(u: Unit, more: string)
    ensures var s := UnitText(u) + more;
            if u.Plain? then s != "" && s[0] == u.c && s[1..] == more
            else |s| >= 2 && s[0] == '\\' && s[1] == u.e && s[2..] == more
  {
  }

  /** Where a literal goes on, it goes on with one character and the rest of it. */
  lemma LiteralGoesOn(s: string) returns (u: Unit, more: string)
    requires Literal(s).Some? && s[0] != '"'
    ensures s == UnitText(u) + more && UnitOk(u) && Literal(more).Some?
    ensures Literal(s).value == (UnitValue(u) + Literal(more).value.0, Literal(more).value.1 + |UnitText(u)|)
  {
    if s[0] == '\\' {
      u, more := Escaped(s[1]), s[2..];
      EscapedReads(s, more);
    } else {
      u, more := Plain(s[0]), s[1..];
      PlainReads(s, more);
    }
  }

  lemma UnitsCons(u: Unit, us: seq<Unit>, rest: string)
    ensures UnitsText([u] + us) == UnitText(u) + UnitsText(us) && UnitsValue([u] + us) == UnitValue(u) + UnitsValue(us)
    ensures UnitsText([u] + us) + rest == UnitText(u) + (UnitsText(us) + rest)
    ensures UnitOk(u) && UnitsOk(us) ==> UnitsOk([u] + us)
  {
    assert ([u] + us)[1..] == us;
    Regroup(UnitText(u), UnitsText(us), rest);
  }

  lemma {:induction false} LiteralWritten(s: string) returns (us: seq<Unit>, rest: string)
    requires Literal(s).Some?
    ensures UnitsOk(us) && s == UnitsText(us) + ("\"" + rest)
    ensures Literal(s).value == (UnitsValue(us), |UnitsText(us)| + 1)
    decreases |s|
  {
    if s[0] == '"' {
      us, rest := [], s[1..];
      assert s == "\"" + rest == "" + ("\"" + rest);
    } else {
      var u, more := LiteralGoesOn(s);
      us, rest := LiteralWritten(more);
      UnitsCons(u, us, "\"" + rest);
      us := [u] + us;
    }
  }

  lemma {:induction false} GapIs(gap: string, rest: string)
    requires Blank(gap) && (rest == "" || !IsWs(rest[0]))
    ensures WsLen(gap + rest) == |gap|
  {
    var s := gap + rest;
    if gap == "" {
      assert s == rest;
    } else {
      assert s[1..] == gap[1..] + rest && s[0] == gap[0];
      GapIs(gap[1..], rest);
    }
  }

  lemma {:induction false} GapStops(s: string)
    ensures Blank(s[..WsLen(s)]) && (WsLen(s) < |s| ==> !IsWs(s[WsLen(s)]))
  {
    if s != "" && IsWs(s[0]) {
      GapStops(s[1..]);
      var n := WsLen(s[1..]);
      assert s[..n + 1] == [s[0]] + s[1..][..n];
    }
  }

  lemma {:induction false} WordStops(s: string)
    ensures WordLen(s) < |s| ==> !IsWordChar(s[WordLen(s)])
  {
    if s != "" && IsWordChar(s[0]) {
      WordStops(s[1..]);
    }
  }

  /** Nothing but a word starts with a character that could continue a word, and no piece with white space. */
  lemma StartsApart(p: Piece)
    requires PieceOk(p)
    ensures PieceText(p) != "" && !IsWs(PieceText(p)[0])
    ensures !p.Word? ==> !IsWordChar(PieceText(p)[0])
  {
  }

  lemma BlankApart(c: char)
    requires IsWs(c)
    ensures !IsWordChar(c)
  {
  }

  /** What follows a word does not continue it. */
  ghost predicate Ends(p: Piece, rest: string) {
    p.Word? && rest != "" ==> !IsWordChar(rest[0])
  }

  lemma {:induction false} WordIs(w: string, rest: string)
    requires (forall i :: 0 <= i < |w| ==> IsWordChar(w[i])) && (rest != "" ==> !IsWordChar(rest[0]))
    ensures WordLen(w + rest) == |w|
  {
    if w == "" {
      assert w + rest == rest;
    } else {
      assert (w + rest)[1..] == w[1..] + rest && (w + rest)[0] == w[0];
      WordIs(w[1..], rest);
    }
  }

  lemma PieceIsRead(p: Piece, rest: string)
    requires PieceOk(p) && Ends(p, rest)
    ensures FirstTok(PieceText(p) + rest) == Some((PieceTok(p), |PieceText(p)|))
  {
    if p.Word? {
      WordIsRead(p.w, rest);
    } else if p.Literally? {
      StringIsRead(p.units, rest);
    } else {
      var s, text := PieceText(p) + rest, PieceText(p);
      assert s[0] == text[0] && (|text| == 2 ==> s[1] == text[1]);
    }
  }

  lemma WordIsRead(w: string, rest: string)
    requires Printer.IsWord(w) && (rest != "" ==> !IsWordChar(rest[0]))
    ensures FirstTok(w + rest) == Some((Ident(IdentText(w)), |w|))
  {
    var s := w + rest;
    WordIs(w, rest);
    assert s[..|w|] == w && s[0] == w[0];
  }

  lemma StringIsRead(us: seq<Unit>, rest: string)
    requires UnitsOk(us)
    ensures FirstTok("\"" + UnitsText(us) + "\"" + rest) == Some((Str(UnitsValue(us)), |UnitsText(us)| + 2))
  {
    var s, body := "\"" + UnitsText(us) + "\"" + rest, UnitsText(us) + ("\"" + rest);
    LiteralReads(us, rest);
    assert s == "\"" + body;
    assert s[0] == '"' && s[1..] == body;
  }

  /** One piece in front of a text. */
  lemma LexFront(gap: string, p: Piece, rest: string)
    requires Blank(gap) && PieceOk(p) && Ends(p, rest) && Lex(rest).Some?
    ensures Lex(gap + (PieceText(p) + rest)) == Some([PieceTok(p)] + Lex(rest).value)
  {
    var t := PieceText(p) + rest;
    StartsApart(p);
    assert t[0] == PieceText(p)[0];
    GapIs(gap, t);
    assert (gap + t)[|gap|..] == t && t[|PieceText(p)|..] == rest;
    PieceIsRead(p, rest);
  }

  lemma FrontEnds(ps: seq<Spaced>, end: string)
    requires Pieces(ps, end) && ps != []
    ensures Pieces(ps[1..], end) && Ends(ps[0].piece, TextOf(ps[1..], end))
  {
    var more := ps[1..];
    forall i | 0 < i < |more| && more[i].gap == "" ensures !(more[i - 1].piece.Word? && more[i].piece.Word?) {
      assert more[i] == ps[i + 1] && more[i - 1] == ps[i];
    }
    var rest := TextOf(more, end);
    if ps[0].piece.Word? && rest != "" {
      if more == [] {
        BlankApart(rest[0]);
      } else if more[0].gap == "" {
        assert more[0] == ps[1];
        StartsApart(more[0].piece);
        assert rest[0] == PieceText(more[0].piece)[0];
      } else {
        assert rest[0] == more[0].gap[0];
        BlankApart(rest[0]);
      }
    }
  }

  /** Lexing gives every such text its tokens. */
  lemma {:induction false} LexReads(ps: seq<Spaced>, end: string)
    requires Pieces(ps, end)
    ensures Lex(TextOf(ps, end)) == Some(ToksOf(ps))
  {
    if ps == [] {
      assert end + "" == end;
      GapIs(end, "");
      assert end[|end|..] == "";
    } else {
      FrontEnds(ps, end);
      LexReads(ps[1..], end);
      LexFront(ps[0].gap, ps[0].piece, TextOf(ps[1..], end));
      assert ToksOf(ps) == [PieceTok(ps[0].piece)] + ToksOf(ps[1..]);
    }
  }

  lemma FirstWritten(t: string) returns (p: Piece, rest: string)
    requires t != "" && FirstTok(t).Some?
    ensures PieceOk(p) && t == PieceText(p) + rest && Ends(p, rest)
    ensures FirstTok(t).value == (PieceTok(p), |PieceText(p)|)
  {
    var n := FirstTok(t).value.1;
    rest := t[n..];
    CutInTwo(t, n);
    if t[0] == '"' {
      p, rest := StringWritten(t);
    } else if FirstTok(t).value.0.Ident? {
      p := Word(t[..n]);
      Printer.FirstIsWord(t);
      WordStops(t);
    } else if n == 1 {
      p := if t[0] == '(' then Open else Close;
      assert t[..1] == PieceText(p);
    } else {
      p := if t[0] == '=' then Equal else Unequal;
      assert t[..2] == PieceText(p);
    }
  }

  lemma StringWritten(t: string) returns (p: Piece, rest: string)
    requires t != "" && FirstTok(t).Some? && t[0] == '"'
    ensures PieceOk(p) && !p.Word? && t == PieceText(p) + rest
    ensures FirstTok(t).value == (PieceTok(p), |PieceText(p)|)
  {
    var us;
    us, rest := LiteralWritten(t[1..]);
    p := Literally(us);
    assert t == "\"" + t[1..];
    assert t == PieceText(p) + rest;
  }

  /** Only such texts can be lexed. */
  lemma {:induction false} LexWritten(s: string) returns (ps: seq<Spaced>, end: string)
    requires Lex(s).Some?
    ensures Pieces(ps, end) && s == TextOf(ps, end) && ToksOf(ps) == Lex(s).value
    decreases |s|
  {
    var n := WsLen(s);
    GapStops(s);
    CutInTwo(s, n);
    if s[n..] == "" {
      ps, end := [], s[..n];
    } else {
      var p, rest := FirstWritten(s[n..]);
      assert s[n..][|PieceText(p)|..] == rest;
      ps, end := LexWritten(rest);
      PiecesCons(s[..n], p, ps, end);
      ps := [Spaced(s[..n], p)] + ps;
    }
  }

  lemma PiecesCons(gap: string, p: Piece, more: seq<Spaced>, end: string)
    requires Blank(gap) && PieceOk(p) && Pieces(more, end) && Ends(p, TextOf(more, end))
    ensures var ps := [Spaced(gap, p)] + more;
            && Pieces(ps, end) && TextOf(ps, end) == gap + (PieceText(p) + TextOf(more, end))
            && ToksOf(ps) == [PieceTok(p)] + ToksOf(more)
  {
    WordInFront(more, end);
    StaySeparate(Spaced(gap, p), more);
    TextCons(Spaced(gap, p), more, end);
  }

  lemma TextCons(first: Spaced, more: seq<Spaced>, end: string)
    ensures TextOf([first] + more, end) == first.gap + (PieceText(first.piece) + TextOf(more, end))
    ensures ToksOf([first] + more) == [PieceTok(first.piece)] + ToksOf(more)
  {
    assert ([first] + more)[1..] == more;
  }

  lemma StaySeparate(first: Spaced, more: seq<Spaced>)
    requires Separate(more)
    requires more != [] && more[0].gap == "" && more[0].piece.Word? ==> !first.piece.Word?
    ensures Separate([first] + more)
  {
    var ps := [first] + more;
    forall i | 0 < i < |ps| && ps[i].gap == "" ensures !(ps[i - 1].piece.Word? && ps[i].piece.Word?) {
      if i > 1 {
        assert ps[i] == more[i - 1] && ps[i - 1] == more[i - 2];
      }
    }
  }

  lemma WordInFront(ps: seq<Spaced>, end: string)
    requires Pieces(ps, end)
    ensures ps != [] && ps[0].gap == "" && ps[0].piece.Word? ==>
              TextOf(ps, end) != "" && IsWordChar(TextOf(ps, end)[0])
  {
    if ps != [] && ps[0].gap == "" && ps[0].piece.Word? {
      StartsApart(ps[0].piece);
      assert TextOf(ps, end)[0] == ps[0].piece.w[0];
    }
  }

  // ------------------------------------------------------------------
  // Expressions as they are written

  /** Parentheses and the names chosen are still there. */
  datatype Syntax =
    | Either(a: Syntax, b: Syntax)
    | Both(a: Syntax, b: Syntax)
    | Negated(inner: Syntax)
    | Parens(inner: Syntax)
    | Member(name: string, list: string)
    | Comparison(name: string, op: Tok, value: string)

  function Written(x: Syntax): seq<Tok> {
    match x
    case Either(a, b) => Written(a) + ([Ident("or")] + Written(b))
    case Both(a, b) => Written(a) + ([Ident("and")] + Written(b))
    case Negated(inner) => [Ident("not")] + Written(inner)
    case Parens(inner) => [LParen] + (Written(inner) + [RParen])
    case Member(name, list) => [Ident(name), Ident("in"), Ident(list)]
    case Comparison(name, op, value) => [Ident(name), op, Str(value)]
  }

  predicate IsOperator(op: Tok) {
    op.EqEq? || op.NotEq? || (op.Ident? && op.s in {"startswith", "endswith", "contains", "matches"})
  }

  /** A field can have any name but `not`. */
  predicate IsUnary(x: Syntax)
    decreases x, 0
  {
    match x
    case Negated(inner) => IsUnary(inner)
    case Parens(inner) => IsDisjunction(inner)
    case Member(name, _) => name != "not"
    case Comparison(name, op, _) => name != "not" && IsOperator(op)
    case _ => false
  }

  predicate IsConjunction(x: Syntax)
    decreases x, 1
  {
    if x.Both? then IsConjunction(x.a) && IsUnary(x.b) else IsUnary(x)
  }

  predicate IsDisjunction(x: Syntax)
    decreases x, 2
  {
    if x.Either? then IsDisjunction(x.a) && IsConjunction(x.b) else IsConjunction(x)
  }

  /** The names of the fields, aliases included. */
  predicate NamesField(name: string, f: Field) {
    match f
    case Tool => name == "tool"
    case Command => name == "command"
    case Path => name == "path"
    case UrlHost => name == "url_host" || name == "url.host"
    case Query => name == "query"
    case Agent => name == "agent"
    case Mode => name == "mode"
    case Server => name == "server"
    case Trust => name == "trust" || name == "server.trust"
    case Unknown =>
      name !in {"tool", "command", "path", "url_host", "url.host", "query", "agent", "mode", "server", "trust",
                "server.trust"}
  }

  predicate IsOp(op: Tok, value: string, r: RawOp) {
    && r.w == value
    && match r
       case Eq(_) => op == EqEq
       case Ne(_) => op == NotEq
       case StartsWith(_) => op == Ident("startswith")
       case EndsWith(_) => op == Ident("endswith")
       case Contains(_) => op == Ident("contains")
       case Matches(_) => op == Ident("matches")
  }

  /** The tree an expression stands for. */
  predicate Means(x: Syntax, e: RawExpr) {
    match x
    case Either(a, b) => e.Or? && Means(a, e.a) && Means(b, e.b)
    case Both(a, b) => e.And? && Means(a, e.a) && Means(b, e.b)
    case Negated(inner) => e.Not? && Means(inner, e.inner)
    case Parens(inner) => Means(inner, e)
    case Member(name, list) => e.Pred? && e.p.In? && NamesField(name, e.p.field) && e.p.listRef == list
    case Comparison(name, op, value) =>
      e.Pred? && e.p.Compare? && NamesField(name, e.p.field) && IsOp(op, value, e.p.op)
  }

  lemma FieldIs(name: string, f: Field)
    ensures FieldFromName(name) == f <==> NamesField(name, f)
  {
    var all := ["tool", "command", "path", "url_host", "url.host", "query", "agent", "mode", "server", "trust",
                "server.trust"];
    assert |all[0]| == 4 && |all[1]| == 7 && |all[2]| == 4 && |all[3]| == 8 && |all[4]| == 8 && |all[5]| == 5;
    assert |all[6]| == 5 && |all[7]| == 4 && |all[8]| == 6 && |all[9]| == 5 && |all[10]| == 12;
    assert all[0][0] == 't' && all[2][0] == 'p' && all[7][0] == 'm' && all[3][3] == '_' && all[4][3] == '.';
    assert all[5][0] == 'q' && all[6][0] == 'a' && all[9][0] == 't';
  }

  lemma OpIs(op: Tok, value: string, r: RawOp)
    ensures MakeOp(op, value) == Some(r) <==> IsOp(op, value, r)
  {
    assert |"startswith"| == 10 && |"endswith"| == 8 && |"contains"| == 8 && |"matches"| == 7;
    assert "endswith"[0] == 'e' && "contains"[0] == 'c';
  }

  lemma OpMade(op: Tok, value: string)
    ensures IsOperator(op) <==> MakeOp(op, value).Some?
  {
  }

  // ------------------------------------------------------------------
  // Parsing

  lemma PredicateParses(x: Syntax, e: RawExpr, rest: seq<Tok>)
    requires (x.Member? || x.Comparison?) && IsUnary(x) && Means(x, e)
    ensures ParseUnary(Written(x) + rest) == Got(e, rest)
  {
    var ts := Written(x) + rest;
    assert ts[3..] == rest && ts[0] == Written(x)[0] && ts[1] == Written(x)[1] && ts[2] == Written(x)[2];
    assert ts[1..][0] == ts[1];
    FieldIs(x.name, e.p.field);
    if x.Comparison? {
      OpIs(x.op, x.value, e.p.op);
      assert |"in"| == 2 && |"startswith"| == 10 && |"endswith"| == 8 && |"contains"| == 8 && |"matches"| == 7;
    }
  }

  lemma FrontTok(t: Tok, a: seq<Tok>, b: seq<Tok>, rest: seq<Tok>)
    ensures var ts := [t] + (a + b) + rest;
            ts != [] && ts[0] == t && ts[1..] == a + (b + rest)
    ensures a + [] == a && [] + rest == rest
  {
  }

  lemma {:induction false} UnaryParses(x: Syntax, e: RawExpr, rest: seq<Tok>)
    requires IsUnary(x) && Means(x, e)
    ensures ParseUnary(Written(x) + rest) == Got(e, rest)
    decreases x, 0
  {
    match x
    case Negated(inner) =>
      FrontTok(Ident("not"), Written(inner), [], rest);
      UnaryParses(inner, e.inner, rest);
    case Parens(inner) =>
      FrontTok(LParen, Written(inner), [RParen], rest);
      DisjunctionParses(inner, e, [RParen] + rest);
      assert ([RParen] + rest)[1..] == rest;
    case _ => PredicateParses(x, e, rest);
  }

  lemma {:induction false} ConjunctionParses(x: Syntax, e: RawExpr, rest: seq<Tok>)
    requires IsConjunction(x) && Means(x, e)
    ensures ParseAnd(Written(x) + rest) == AndRest(e, rest)
    decreases x, 1
  {
    if x.Both? {
      var more := [Ident("and")] + (Written(x.b) + rest);
      assert Written(x) + rest == Written(x.a) + more && more[1..] == Written(x.b) + rest;
      ConjunctionParses(x.a, e.a, more);
      UnaryParses(x.b, e.b, rest);
    } else {
      UnaryParses(x, e, rest);
    }
  }

  lemma {:induction false} DisjunctionParses(x: Syntax, e: RawExpr, rest: seq<Tok>)
    requires IsDisjunction(x) && Means(x, e) && !Starts(rest, "and")
    ensures ParseOr(Written(x) + rest) == OrRest(e, rest)
    decreases x, 2
  {
    if x.Either? {
      var more := [Ident("or")] + (Written(x.b) + rest);
      assert Written(x) + rest == Written(x.a) + more && more[1..] == Written(x.b) + rest;
      assert "or"[0] != "and"[0];
      DisjunctionParses(x.a, e.a, more);
      ConjunctionParses(x.b, e.b, rest);
    } else {
      ConjunctionParses(x, e, rest);
    }
  }

  /** The tokens are those of the expression, which means the tree, and the rest. */
  ghost predicate Reads(ts: seq<Tok>, x: Syntax, e: RawExpr, rest: seq<Tok>) {
    Means(x, e) && ts == Written(x) + rest
  }

  lemma PredicateWritten(ts: seq<Tok>) returns (x: Syntax)
    requires ParsePredicate(ts).Got? && !Starts(ts, "not")
    ensures IsUnary(x) && Reads(ts, x, ParsePredicate(ts).e, ParsePredicate(ts).rest)
  {
    var e, name := ParsePredicate(ts).e, ts[0].s;
    FieldIs(name, e.p.field);
    assert ts == [ts[0], ts[1], ts[2]] + ts[3..];
    if Starts(ts[1..], "in") {
      x := Member(name, ts[2].s);
    } else {
      OpIs(ts[1], ts[2].s, e.p.op);
      OpMade(ts[1], ts[2].s);
      x := Comparison(name, ts[1], ts[2].s);
    }
  }

  lemma {:induction false} UnaryWritten(ts: seq<Tok>) returns (x: Syntax)
    requires ParseUnary(ts).Got?
    ensures IsUnary(x) && Reads(ts, x, ParseUnary(ts).e, ParseUnary(ts).rest)
    decreases |ts|, 0
  {
    if Starts(ts, "not") {
      var inner := UnaryWritten(ts[1..]);
      x := Negated(inner);
      assert ts == [Ident("not")] + ts[1..];
    } else if ts != [] && ts[0].LParen? {
      var inner := DisjunctionWritten(ts[1..]);
      x := Parens(inner);
      var after := ParseOr(ts[1..]).rest;
      assert ts == [LParen] + ts[1..] && after == [RParen] + after[1..];
      Regroup([LParen], Written(inner) + [RParen], after[1..]);
      Regroup(Written(inner), [RParen], after[1..]);
    } else {
      x := PredicateWritten(ts);
    }
  }

  lemma {:induction false} AndRestWritten(first: Syntax, lhs: RawExpr, ts: seq<Tok>) returns (x: Syntax)
    requires AndRest(lhs, ts).Got? && IsConjunction(first) && Means(first, lhs)
    ensures IsConjunction(x) && Reads(Written(first) + ts, x, AndRest(lhs, ts).e, AndRest(lhs, ts).rest)
    decreases |ts|, 1
  {
    if !Starts(ts, "and") {
      x := first;
    } else {
      var second := UnaryWritten(ts[1..]);
      var rhs := ParseUnary(ts[1..]);
      x := AndRestWritten(Both(first, second), And(lhs, rhs.e), rhs.rest);
      Joined(first, "and", second, ts, rhs.rest);
    }
  }

  lemma Joined(first: Syntax, word: string, second: Syntax, ts: seq<Tok>, rest: seq<Tok>)
    requires ts != [] && ts[0] == Ident(word) && ts[1..] == Written(second) + rest
    ensures Written(first) + ts == Written(first) + ([Ident(word)] + Written(second)) + rest
  {
    assert ts == [Ident(word)] + (Written(second) + rest);
  }

  lemma {:induction false} ConjunctionWritten(ts: seq<Tok>) returns (x: Syntax)
    requires ParseAnd(ts).Got?
    ensures IsConjunction(x) && Reads(ts, x, ParseAnd(ts).e, ParseAnd(ts).rest)
    decreases |ts|, 2
  {
    var first := UnaryWritten(ts);
    x := AndRestWritten(first, ParseUnary(ts).e, ParseUnary(ts).rest);
  }

  lemma {:induction false} OrRestWritten(first: Syntax, lhs: RawExpr, ts: seq<Tok>) returns (x: Syntax)
    requires OrRest(lhs, ts).Got? && IsDisjunction(first) && Means(first, lhs)
    ensures IsDisjunction(x) && Reads(Written(first) + ts, x, OrRest(lhs, ts).e, OrRest(lhs, ts).rest)
    decreases |ts|, 3
  {
    if !Starts(ts, "or") {
      x := first;
    } else {
      var second := ConjunctionWritten(ts[1..]);
      var rhs := ParseAnd(ts[1..]);
      x := OrRestWritten(Either(first, second), Or(lhs, rhs.e), rhs.rest);
      Joined(first, "or", second, ts, rhs.rest);
    }
  }

  lemma {:induction false} DisjunctionWritten(ts: seq<Tok>) returns (x: Syntax)
    requires ParseOr(ts).Got?
    ensures IsDisjunction(x) && Reads(ts, x, ParseOr(ts).e, ParseOr(ts).rest)
    decreases |ts|, 4
  {
    var first := ConjunctionWritten(ts);
    x := OrRestWritten(first, ParseAnd(ts).e, ParseAnd(ts).rest);
  }

  // ------------------------------------------------------------------
  // The language

  /** The bytes of the text, read one at a time, are an expression that means the tree. */
  ghost predicate Says(text: string, ps: seq<Spaced>, end: string, x: Syntax, e: RawExpr) {
    && Pieces(ps, end) && AsRead(text) == TextOf(ps, end)
    && IsDisjunction(x) && ToksOf(ps) == Written(x) && Means(x, e)
  }

  /** The parser accepts exactly the texts of the language, and gives each the tree it means. */
  lemma ParseIff(text: string, e: RawExpr)
    ensures ParseWhen(text) == Some(e) <==> exists ps, end, x :: Says(text, ps, end, x, e)
  {
    if ParseWhen(text) == Some(e) {
      var ps, end := LexWritten(AsRead(text));
      var x := DisjunctionWritten(ToksOf(ps));
      assert Written(x) + [] == Written(x);
      assert Says(text, ps, end, x, e);
    }
    if ps, end, x :| Says(text, ps, end, x, e) {
      SaidParses(text, ps, end, x, e);
    }
  }

  lemma SaidParses(text: string, ps: seq<Spaced>, end: string, x: Syntax, e: RawExpr)
    requires Says(text, ps, end, x, e)
    ensures ParseWhen(text) == Some(e)
  {
    LexReads(ps, end);
    DisjunctionParses(x, e, []);
    assert Written(x) + [] == Written(x);
    WrittenSomething(x);
  }

  lemma {:induction false} WrittenSomething(x: Syntax)
    ensures Written(x) != []
  {
    match x
    case Either(a, b) => WrittenSomething(a);
    case Both(a, b) => WrittenSomething(a);
    case _ =>
  }

  /** A name, an operator and a literal, with one space between them. */
  function RulePieces(name: string, op: string, us: seq<Unit>): seq<Spaced> {
    [Spaced("", Word(name)), Spaced(" ", Word(op)), Spaced(" ", Literally(us))]
  }

  function RuleText(name: string, op: string, us: seq<Unit>): string {
    name + " " + op + " " + ("\"" + UnitsText(us) + "\"")
  }

  lemma RuleIsText(name: string, op: string, us: seq<Unit>)
    requires UnitsOk(us) && Printer.IsWord(name) && Printer.IsWord(op)
    ensures Pieces(RulePieces(name, op, us), "") && TextOf(RulePieces(name, op, us), "") == RuleText(name, op, us)
  {
    var ps, quoted := RulePieces(name, op, us), "\"" + UnitsText(us) + "\"";
    assert ps[1..][1..] == ps[2..] && ps[2..][1..] == [];
    assert TextOf(ps[2..], "") == " " + (quoted + "");
    assert TextOf(ps[1..], "") == " " + (op + TextOf(ps[2..], ""));
    assert "" + (name + (" " + (op + (" " + (quoted + ""))))) == name + " " + op + " " + quoted;
  }

  lemma AsciiParts(a: string, b: string, c: string)
    requires IsAscii(a + " " + b + " " + c)
    ensures IsAscii(a) && IsAscii(b)
  {
    var s := a + " " + b + " " + c;
    assert forall i :: 0 <= i < |a| ==> s[i] == a[i];
    assert forall i :: 0 <= i < |b| ==> s[|a| + 1 + i] == b[i];
  }

  lemma RuleToks(name: string, op: string, us: seq<Unit>)
    requires Printer.IsWord(name) && Printer.IsWord(op) && IsAscii(RuleText(name, op, us))
    ensures ToksOf(RulePieces(name, op, us)) == [Ident(name), Ident(op), Str(UnitsValue(us))]
  {
    AsciiParts(name, op, "\"" + UnitsText(us) + "\"");
    Printer.AsciiIdent(name);
    Printer.AsciiIdent(op);
  }

  /** What a comparison says, whatever the field is called and however the literal is spelled. */
  lemma ComparisonSays(name: string, op: string, us: seq<Unit>, f: Field, r: RawOp)
    requires Printer.IsWord(name) && Printer.IsWord(op) && UnitsOk(us) && IsAscii(RuleText(name, op, us))
    requires name != "not" && NamesField(name, f) && IsOperator(Ident(op)) && IsOp(Ident(op), UnitsValue(us), r)
    ensures ParseWhen(RuleText(name, op, us)) == Some(Pred(Compare(f, r)))
  {
    RuleIsText(name, op, us);
    RuleToks(name, op, us);
    ReadIff(RuleText(name, op, us));
    PiecesParse(RuleText(name, op, us), RulePieces(name, op, us), Comparison(name, Ident(op), UnitsValue(us)),
                Pred(Compare(f, r)));
  }

  lemma PiecesParse(text: string, ps: seq<Spaced>, x: Syntax, e: RawExpr)
    requires Pieces(ps, "") && AsRead(text) == TextOf(ps, "")
    requires x.Comparison? && IsUnary(x) && Means(x, e) && ToksOf(ps) == [Ident(x.name), x.op, Str(x.value)]
    ensures ParseWhen(text) == Some(e)
  {
    SaidParses(text, ps, "", x, e);
  }
}
