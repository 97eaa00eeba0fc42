/** SplitStatements (internal/clickhouse/client.go): the byte loop, proved against the token grammar. */
module SqlSplit {
  import opened SqlText
  import opened SqlLexer
  import opened SqlGrammar

  // ---------------------------------------------------------------- when lexing fails

  /** `u` opens the construct that `e` names, and nothing in `u` closes it. */
  ghost predicate Unclosed(u: string, e: LexError) {
    match e
    case UnterminatedQuote =>
      u != "" && IsQuote(u[0]) &&
      forall t :: IsQuotedText(t, u[0]) && t <= u ==> |t| < |u| && u[|t|] == u[0]
    case UnterminatedHeredoc =>
      exists tag :: IsTag(tag) && tag <= u && forall k: nat :: |tag| <= k ==> !Has(u, k, tag)
    case UnterminatedComment =>
      Opens(u, '/', '*') && forall b, rest :: Clean(b) ==> u[2..] != Closed(b) + rest
  }

  /** After some tokens of the grammar, the text ends inside the construct that `e` names. */
  ghost predicate EndsInside(s: string, e: LexError)
    decreases |s|
  {
    || Unclosed(s, e)
    || exists t: Token ::
      && t.text != "" && t.text <= s
      && TokenAt(t, s[|t.text|..]) && EndsInside(s[|t.text|..], e)
  }

  lemma ClosedQuote(s: string)
    requires s != "" && IsQuote(s[0]) && First(s).Ok?
    ensures var t := First(s).value.text;
      IsQuotedText(t, s[0]) && t <= s && (|t| < |s| ==> s[|t|] != s[0])
  {
    FirstQuote(s);
    FirstSound(s);
    var t := First(s).value.text;
    assert |t| < |s| ==> s[|t|..][0] == s[|t|];
  }

  /** A quoted text that the next byte does not continue would have been a token. */
  lemma NotClosed(s: string, t: string)
    requires s != "" && IsQuote(s[0]) && First(s).Err? && IsQuotedText(t, s[0]) && t <= s
    ensures |t| < |s| && s[|t|] == s[0]
  {
    var rest := s[|t|..];
    assert t + rest == s;
    if rest == "" || rest[0] != s[0] { FirstComplete(Token(Quoted, t), rest); }
  }

  lemma UnclosedQuote(s: string)
    requires s != "" && IsQuote(s[0])
    ensures First(s) == Err(UnterminatedQuote) <==> Unclosed(s, UnterminatedQuote)
  {
    FirstQuote(s);
    if First(s).Ok? {
      ClosedQuote(s);
    } else {
      forall t | IsQuotedText(t, s[0]) && t <= s
        ensures |t| < |s| && s[|t|] == s[0]
      {
        NotClosed(s, t);
      }
    }
  }

  lemma NoTagBehind(s: string, tag: string, more: string)
    requires tag != "" && |tag| <= |s| && more == s[|tag|..] && HeredocEnd(more, tag) == None
    ensures forall k: nat :: |tag| <= k ==> !Has(s, k, tag)
  {
    HeredocEndSpec(more, tag);
    forall k: nat | |tag| <= k
      ensures !Has(s, k, tag)
    {
      HasSlice(s, |tag|, k - |tag|, tag);
    }
  }

  lemma TagBehind(s: string, tag: string, more: string)
    requires tag != "" && |tag| <= |s| && more == s[|tag|..] && HeredocEnd(more, tag).Some?
    ensures exists k: nat :: |tag| <= k && Has(s, k, tag)
  {
    HeredocEndSpec(more, tag);
    var n := HeredocEnd(more, tag).value - |tag|;
    HasSlice(s, |tag|, n, tag);
    assert Has(s, |tag| + n, tag);
  }

  lemma NoClosingTag(s: string, tag: string)
    requires tag != "" && tag <= s
    ensures HeredocEnd(s[|tag|..], tag) == None <==> forall k: nat :: |tag| <= k ==> !Has(s, k, tag)
  {
    if HeredocEnd(s[|tag|..], tag).None? {
      NoTagBehind(s, tag, s[|tag|..]);
    } else {
      TagBehind(s, tag, s[|tag|..]);
    }
  }

  lemma OpenHeredoc(s: string, tag: string)
    requires s != "" && tag == HeredocTag(s) != ""
    ensures First(s) == Err(UnterminatedHeredoc) <==> HeredocEnd(s[|tag|..], tag) == None
  {
    FirstHeredoc(s, tag);
  }

  lemma UnclosedHeredoc(s: string)
    requires s != "" && HeredocTag(s) != ""
    ensures First(s) == Err(UnterminatedHeredoc) <==> Unclosed(s, UnterminatedHeredoc)
  {
    OpenHeredoc(s, HeredocTag(s));
    NoClosingTag(s, HeredocTag(s));
    if Unclosed(s, UnterminatedHeredoc) {
      var tag :| IsTag(tag) && tag <= s && forall k: nat :: |tag| <= k ==> !Has(s, k, tag);
      TagUnique(s, tag);
    }
  }

  lemma UnclosedComment(s: string)
    requires Opens(s, '/', '*')
    ensures First(s) == Err(UnterminatedComment) <==> Unclosed(s, UnterminatedComment)
  {
    if BlockEnd(s[2..], 1).Some? {
      var b, rest := BlockEndSound(s[2..], 1);
      assert !Unclosed(s, UnterminatedComment);
    } else {
      forall b, rest | Clean(b)
        ensures s[2..] != Closed(b) + rest
      {
        BlockEndComplete(b, rest, 1);
      }
    }
  }

  lemma UnclosedFirst(s: string, e: LexError)
    requires s != ""
    ensures First(s) == Err(e) <==> Unclosed(s, e)
  {
    if Unclosed(s, UnterminatedHeredoc) {
      var tag :| IsTag(tag) && tag <= s && forall k: nat :: |tag| <= k ==> !Has(s, k, tag);
      TagUnique(s, tag);
      assert s[0] == tag[0] == '$';
    }
    match e {
      case UnterminatedQuote => if IsQuote(s[0]) { UnclosedQuote(s); }
      case UnterminatedHeredoc => if HeredocTag(s) != "" { UnclosedHeredoc(s); }
      case UnterminatedComment => if Opens(s, '/', '*') { UnclosedComment(s); }
    }
  }

  /** Lexing reports exactly the construct inside which the text ends. */
  lemma {:induction false} LexErrorIsEndsInside(s: string, e: LexError)
    ensures Lex(s) == Err(e) <==> EndsInside(s, e)
    decreases |s|
  {
    if s == "" {
      assert !EndsInside(s, e);
    } else {
      UnclosedFirst(s, e);
      if First(s).Ok? {
        var u := First(s).value;
        FirstSound(s);
        LexErrorIsEndsInside(s[|u.text|..], e);
        forall t: Token | t.text != "" && t.text <= s && TokenAt(t, s[|t.text|..])
          ensures t == u
        {
          FirstIsGrammar(s, t);
        }
      } else {
        forall t: Token | t.text != "" && t.text <= s
          ensures !TokenAt(t, s[|t.text|..])
        {
          FirstIsGrammar(s, t);
        }
      }
    }
  }

  // ---------------------------------------------------------------- statements of a token sequence

  predicate IsCode(t: Token) { t.kind == Code || t.kind == Quoted || t.kind == Heredoc }

  predicate HasCode(toks: seq<Token>) {
    toks != [] && (IsCode(toks[0]) || HasCode(toks[1..]))
  }

  ghost predicate NoSemicolon(toks: seq<Token>) {
    forall k :: 0 <= k < |toks| ==> toks[k].kind != Semicolon
  }

  function Emit(cur: string, code: bool): seq<string> {
    if code then [TrimSpace(cur)] else []
  }

  /** The statements of `toks`, when `cur` is the text since the last separator. */
  function Statements(toks: seq<Token>, cur: string, code: bool): seq<string> {
    if toks == [] then Emit(cur, code)
    else if toks[0].kind == Semicolon then Emit(cur, code) + Statements(toks[1..], "", false)
    else Statements(toks[1..], cur + toks[0].text, code || IsCode(toks[0]))
  }

  function Split(s: string): Result<seq<string>> {
    match Lex(s)
    case Err(e) => Err(e)
    case Ok(toks) => Ok(Statements(toks, "", false))
  }

  // ---------------------------------------------------------------- the pieces between separators

  /** The maximal runs of tokens between top-level semicolons. */
  function Pieces(toks: seq<Token>): (r: seq<seq<Token>>)
    ensures r != []
  {
    if toks == [] then [[]]
    else
      var more := Pieces(toks[1..]);
      if toks[0].kind == Semicolon then [[]] + more else [[toks[0]] + more[0]] + more[1..]
  }

  function Texts(pieces: seq<seq<Token>>): seq<string> {
    seq(|pieces|, i requires 0 <= i < |pieces| => Text(pieces[i]))
  }

  /** The trimmed texts of the pieces that bear code, in order. */
  function CodePieces(pieces: seq<seq<Token>>): seq<string> {
    if pieces == [] then []
    else Emit(Text(pieces[0]), HasCode(pieces[0])) + CodePieces(pieces[1..])
  }

  lemma {:induction false} StatementsArePieces(toks: seq<Token>, cur: string, code: bool)
    ensures var p := Pieces(toks);
      Statements(toks, cur, code) ==
      Emit(cur + Text(p[0]), code || HasCode(p[0])) + CodePieces(p[1..])
  {
    var p := Pieces(toks);
    if toks == [] {
      assert cur + "" == cur;
    } else {
      var t, more := toks[0], Pieces(toks[1..]);
      if t.kind == Semicolon {
        StatementsArePieces(toks[1..], "", false);
        assert cur + "" == cur && "" + Text(more[0]) == Text(more[0]);
        assert p[1..] == more;
      } else {
        StatementsArePieces(toks[1..], cur + t.text, code || IsCode(t));
        assert p[0][1..] == more[0] && p[1..] == more[1..];
        assert cur + (t.text + Text(more[0])) == (cur + t.text) + Text(more[0]);
      }
    }
  }

  /** Splitting keeps, in order and trimmed, the pieces that bear code. */
  lemma SplitIsCodePieces(s: string)
    requires Lex(s).Ok?
    ensures Split(s) == Ok(CodePieces(Pieces(Lex(s).value)))
  {
    var toks := Lex(s).value;
    StatementsArePieces(toks, "", false);
    assert "" + Text(Pieces(toks)[0]) == Text(Pieces(toks)[0]);
  }

  lemma JoinHead(parts: seq<string>, head: string, sep: string)
    requires parts != []
    ensures Join([head + parts[0]] + parts[1..], sep) == head + Join(parts, sep)
  {}

  lemma JoinEmpty(parts: seq<string>, sep: string)
    requires parts != []
    ensures Join([""] + parts, sep) == sep + Join(parts, sep)
  {
    assert ([""] + parts)[1..] == parts;
  }

  lemma SemicolonText(more: seq<seq<Token>>)
    ensures Texts([[]] + more) == [""] + Texts(more)
  {}

  lemma HeadText(t: Token, more: seq<seq<Token>>)
    requires more != []
    ensures Texts([[t] + more[0]] + more[1..]) == [t.text + Texts(more)[0]] + Texts(more)[1..]
  {
    assert ([t] + more[0])[1..] == more[0];
    var all := Texts([[t] + more[0]] + more[1..]);
    assert all[1..] == Texts(more)[1..];
  }

  lemma {:induction false} PiecesRejoin(toks: seq<Token>)
    requires forall k :: 0 <= k < |toks| && toks[k].kind == Semicolon ==> toks[k].text == ";"
    ensures Join(Texts(Pieces(toks)), ";") == Text(toks)
  {
    if toks != [] {
      var more := Pieces(toks[1..]);
      PiecesRejoin(toks[1..]);
      if toks[0].kind == Semicolon {
        SemicolonText(more);
        JoinEmpty(Texts(more), ";");
      } else {
        HeadText(toks[0], more);
        JoinHead(Texts(more), toks[0].text, ";");
      }
    }
  }

  lemma {:induction false} LexSemicolons(s: string)
    requires Lex(s).Ok?
    ensures forall t :: t in Lex(s).value && t.kind == Semicolon ==> t.text == ";"
    decreases |s|
  {
    if s != "" {
      var t := First(s).value;
      LexSemicolons(s[|t.text|..]);
      assert t.kind == Semicolon ==> t.text == s[..1] == ";";
    }
  }

  /** No byte is lost or moved: the pieces joined by semicolons are the source text. */
  lemma SplitLosesNothing(s: string)
    requires Lex(s).Ok?
    ensures Join(Texts(Pieces(Lex(s).value)), ";") == s
  {
    LexSemicolons(s);
    PiecesRejoin(Lex(s).value);
    LexText(s);
  }

  // ---------------------------------------------------------------- the loop

  lemma WordNext(sql: string, i: nat)
    requires i < |sql|
    ensures WordLen(sql[i..]) == if IsWordByte(sql[i]) then 1 + WordLen(sql[i + 1..]) else 0
  {
    assert sql[i..][1..] == sql[i + 1..];
  }

  /** The word behind the dollar sign at `start` ends at `i`. */
  lemma TagAt(sql: string, start: nat, i: nat)
    requires start < i <= |sql| && sql[start] == '$' && WordLen(sql[start + 1..]) == i - start - 1
    ensures HeredocTag(sql[start..]) == if i < |sql| && sql[i] == '$' then sql[start..i + 1] else ""
  {
    var s := sql[start..];
    assert s[1..] == sql[start + 1..];
    if i < |sql| { assert s[..i - start + 1] == sql[start..i + 1]; }
  }

  /** heredocDelimiterAt */
  method HeredocDelimiterAt(sql: string, start: nat) returns (delimiter: string)
    requires start <= |sql|
    ensures delimiter == HeredocTag(sql[start..])
  {
    if start >= |sql| || sql[start] != '$' { return ""; }
    var i := start + 1;
    while i < |sql|
      invariant start < i <= |sql|
      invariant WordLen(sql[start + 1..]) == i - start - 1 + WordLen(sql[i..])
    {
      WordNext(sql, i);
      if sql[i] == '$' {
        TagAt(sql, start, i);
        return sql[start..i + 1];
      }
      if !IsWordByte(sql[i]) {
        TagAt(sql, start, i);
        return "";
      }
      i := i + 1;
    }
    TagAt(sql, start, i);
    return "";
  }

  /** The construct that the scanner is inside; at most one of the four is set. */
  datatype Mode = Mode(quote: char, heredoc: string, lineComment: bool, depth: nat) {
    predicate Valid() {
      && (quote == '\0' || IsQuote(quote))
      && (heredoc != "" ==> quote == '\0')
      && (lineComment ==> heredoc == "" && quote == '\0')
      && (depth > 0 ==> heredoc == "" && !lineComment && quote == '\0')
    }
  }

  const TOP_LEVEL := Mode('\0', "", false, 0)

  function Found(end: Option<nat>, e: LexError): Result<nat> {
    match end case None => Err(e) case Some(n) => Ok(n)
  }

  /** How many bytes of `rest` belong to the construct that the scanner is inside. */
  function Resume(rest: string, m: Mode): (r: Result<nat>)
    ensures r.Ok? ==> r.value <= |rest|
  {
    if m.heredoc != "" then Found(HeredocEnd(rest, m.heredoc), UnterminatedHeredoc)
    else if m.lineComment then Ok(LineEnd(rest))
    else if m.depth > 0 then Found(BlockEnd(rest, m.depth), UnterminatedComment)
    else if m.quote != '\0' then Found(QuoteEnd(rest, m.quote), UnterminatedQuote)
    else Ok(0)
  }

  function Shifted(k: nat, r: Result<nat>): Result<nat> {
    match r case Err(e) => Err(e) case Ok(n) => Ok(k + n)
  }

  ghost function Finish(r: Result<seq<Token>>, done: seq<string>, cur: string, code: bool): Result<seq<string>> {
    match r
    case Err(e) => Err(e)
    case Ok(toks) => Ok(done + Statements(toks, cur, code))
  }

  /** What lies ahead once the scanner has left the construct that it is inside. */
  datatype Ahead = Ahead(tail: string, piece: string)

  function AheadAt(r: Result<nat>, rest: string, cur: string): Result<Ahead>
    requires r.Ok? ==> r.value <= |rest|
  {
    match r
    case Err(e) => Err(e)
    case Ok(n) => Ok(Ahead(rest[n..], cur + rest[..n]))
  }

  ghost function OutcomeOf(r: Result<Ahead>, done: seq<string>, code: bool): Result<seq<string>> {
    match r
    case Err(e) => Err(e)
    case Ok(a) => Finish(Lex(a.tail), done, a.piece, code)
  }

  /** What the scanner must still return from its present state. */
  ghost function Outcome(rest: string, m: Mode, done: seq<string>, cur: string, code: bool): Result<seq<string>> {
    OutcomeOf(AheadAt(Resume(rest, m), rest, cur), done, code)
  }

  lemma OutcomeTopLevel(rest: string, done: seq<string>, cur: string, code: bool)
    ensures Outcome(rest, TOP_LEVEL, done, cur, code) == Finish(Lex(rest), done, cur, code)
  {
    assert rest[0..] == rest && cur + rest[..0] == cur;
  }

  lemma AheadFrom(sql: string, i: nat, j: nat, r: Result<nat>, cur: string)
    requires i <= j <= |sql| && (r.Ok? ==> j + r.value <= |sql|)
    ensures AheadAt(Shifted(j - i, r), sql[i..], cur) == AheadAt(r, sql[j..], cur + sql[i..j])
  {
    if r.Ok? { Cut(cur, sql, i, j, r.value); }
  }

  /** Going from `i` to `j` inside a construct leaves the outcome alone. */
  lemma Advance(sql: string, i: nat, j: nat, m: Mode, m': Mode, done: seq<string>, cur: string, code: bool)
    requires i <= j <= |sql| && Resume(sql[i..], m) == Shifted(j - i, Resume(sql[j..], m'))
    ensures Outcome(sql[i..], m, done, cur, code) == Outcome(sql[j..], m', done, cur + sql[i..j], code)
  {
    AheadFrom(sql, i, j, Resume(sql[j..], m'), cur);
  }

  /** The token `t` at the head of `s` is `k` bytes and what the construct that they open then takes in. */
  predicate OpenedBy(t: Result<Token>, s: string, k: nat, r: Result<nat>, kind: Kind) {
    match r
    case Err(e) => t == Err(e)
    case Ok(n) => k + n <= |s| && t == Ok(Token(kind, s[..k + n]))
  }

  /** The first token of sql[i..] is the bytes up to `j` and what the mode `m'` then consumes. */
  ghost predicate Opened(sql: string, i: nat, j: nat, kind: Kind, m': Mode)
    requires i < |sql| && i <= j <= |sql|
  {
    OpenedBy(First(sql[i..]), sql[i..], j - i, Resume(sql[j..], m'), kind)
  }

  lemma BeginAt(s: string, k: nat, r: Result<nat>, kind: Kind, done: seq<string>, cur: string, code: bool)
    requires s != "" && kind != Semicolon && OpenedBy(First(s), s, k, r, kind) && (r.Ok? ==> k + r.value <= |s|)
    ensures Finish(Lex(s), done, cur, code)
         == OutcomeOf(AheadAt(Shifted(k, r), s, cur), done, code || IsCode(Token(kind, "")))
  {
    if r.Ok? { FinishToken(Token(kind, s[..k + r.value]), Lex(s[k + r.value..]), done, cur, code); }
  }

  lemma BeginFrom(sql: string, i: nat, j: nat, r: Result<nat>, kind: Kind, done: seq<string>, cur: string, code: bool)
    requires i < |sql| && i <= j <= |sql| && kind != Semicolon && (r.Ok? ==> j + r.value <= |sql|)
    requires OpenedBy(First(sql[i..]), sql[i..], j - i, r, kind)
    ensures Finish(Lex(sql[i..]), done, cur, code)
         == OutcomeOf(AheadAt(r, sql[j..], cur + sql[i..j]), done, code || IsCode(Token(kind, "")))
  {
    BeginAt(sql[i..], j - i, r, kind, done, cur, code);
    AheadFrom(sql, i, j, r, cur);
  }

  /** Going from `i` to `j` over the opening of a token leaves the outcome alone. */
  lemma Begin(sql: string, i: nat, j: nat, kind: Kind, m': Mode, done: seq<string>, cur: string, code: bool)
    requires i < |sql| && i <= j <= |sql| && kind != Semicolon
    requires Opened(sql, i, j, kind, m')
    ensures Outcome(sql[i..], TOP_LEVEL, done, cur, code)
         == Outcome(sql[j..], m', done, cur + sql[i..j], code || IsCode(Token(kind, "")))
  {
    OutcomeTopLevel(sql[i..], done, cur, code);
    BeginFrom(sql, i, j, Resume(sql[j..], m'), kind, done, cur, code);
  }

  lemma FinishToken(t: Token, more: Result<seq<Token>>, done: seq<string>, cur: string, code: bool)
    requires t.kind != Semicolon
    ensures Finish(Then([t], more), done, cur, code) == Finish(more, done, cur + t.text, code || IsCode(t))
  {
    if more.Ok? { assert ([t] + more.value)[1..] == more.value; }
  }

  lemma FinishSemicolon(t: Token, more: Result<seq<Token>>, done: seq<string>, cur: string, code: bool)
    requires t.kind == Semicolon
    ensures Finish(Then([t], more), done, cur, code) == Finish(more, done + Emit(cur, code), "", false)
  {
    if more.Ok? {
      assert ([t] + more.value)[1..] == more.value;
      assert done + (Emit(cur, code) + Statements(more.value, "", false))
          == (done + Emit(cur, code)) + Statements(more.value, "", false);
    }
  }

  lemma SemicolonAhead(s: string, rest: string, done: seq<string>, cur: string, code: bool)
    requires s != "" && s[0] == ';' && rest == s[1..]
    ensures Finish(Lex(s), done, cur, code) == Finish(Lex(rest), done + Emit(cur, code), "", false)
  {
    FinishSemicolon(Token(Semicolon, s[..1]), Lex(rest), done, cur, code);
  }

  lemma AtSemicolon(sql: string, i: nat, done: seq<string>, cur: string, code: bool)
    requires i < |sql| && sql[i] == ';'
    ensures Outcome(sql[i..], TOP_LEVEL, done, cur, code)
         == Outcome(sql[i + 1..], TOP_LEVEL, done + Emit(cur, code), "", false)
  {
    OutcomeTopLevel(sql[i..], done, cur, code);
    OutcomeTopLevel(sql[i + 1..], done + Emit(cur, code), "", false);
    DropBoth(sql, i, 1);
    SemicolonAhead(sql[i..], sql[i + 1..], done, cur, code);
  }

  lemma OutcomeAtEnd(m: Mode, done: seq<string>, cur: string, code: bool)
    requires m.Valid()
    ensures Outcome("", m, done, cur, code) ==
      if m.quote != '\0' then Err(UnterminatedQuote)
      else if m.heredoc != "" then Err(UnterminatedHeredoc)
      else if m.depth > 0 then Err(UnterminatedComment)
      else Ok(done + Emit(cur, code))
  {
    assert cur + "" == cur;
  }

  /** One turn of the loop inside a block comment. */
  method ScanBlock(sql: string, start: nat, m: Mode) returns (i: nat, mode: Mode)
    requires start < |sql| && m.Valid() && m.depth > 0
    ensures start < i <= |sql| && mode.Valid()
    ensures Resume(sql[start..], m) == Shifted(i - start, Resume(sql[i..], mode))
  {
    i, mode := start + 1, m;
    var c := sql[start];
    DropBoth(sql, start, 1);
    if start + 2 <= |sql| { DropBoth(sql, start, 2); }
    if c == '/' && i < |sql| && sql[i] == '*' {
      return i + 1, m.(depth := m.depth + 1);
    }
    if c == '*' && i < |sql| && sql[i] == '/' {
      return i + 1, m.(depth := m.depth - 1);
    }
  }

  /** One turn of the loop inside a quote. */
  method ScanQuote(sql: string, start: nat, m: Mode) returns (i: nat, mode: Mode)
    requires start < |sql| && m.Valid() && m.quote != '\0'
    ensures start < i <= |sql| && mode.Valid()
    ensures Resume(sql[start..], m) == Shifted(i - start, Resume(sql[i..], mode))
  {
    i, mode := start + 1, m;
    var c := sql[start];
    DropBoth(sql, start, 1);
    if start + 2 <= |sql| { DropBoth(sql, start, 2); }
    if c == '\\' {
      if i < |sql| { i := i + 1; }
    } else if c == m.quote {
      if i < |sql| && sql[i] == m.quote {
        i := i + 1;
      } else {
        mode := m.(quote := '\0');
      }
    }
  }

  /** One turn of the loop inside a heredoc, a comment or a quote. */
  method ScanInside(sql: string, start: nat, m: Mode) returns (i: nat, mode: Mode)
    requires start < |sql| && m.Valid() && m != TOP_LEVEL
    ensures start < i <= |sql| && mode.Valid()
    ensures Resume(sql[start..], m) == Shifted(i - start, Resume(sql[i..], mode))
  {
    if m.heredoc != "" {
      DropBoth(sql, start, 1);
      if Has(sql[start..], 0, m.heredoc) { return start + |m.heredoc|, m.(heredoc := ""); }
      return start + 1, m;
    }
    if m.lineComment {
      DropBoth(sql, start, 1);
      return start + 1, m.(lineComment := sql[start] != '\n');
    }
    if m.depth > 0 {
      i, mode := ScanBlock(sql, start, m);
    } else {
      i, mode := ScanQuote(sql, start, m);
    }
  }

  /** A turn at top level on a quote or on a single byte. */
  method ScanByte(sql: string, start: nat) returns (mode: Mode, code: bool, ghost kind: Kind)
    requires start < |sql| && sql[start] != ';' && HeredocTag(sql[start..]) == ""
    requires OpenerLen(sql[start..]) == 0 && !Opens(sql[start..], '/', '*')
    ensures mode.Valid() && kind != Semicolon
    ensures Opened(sql, start, start + 1, kind, mode) && code == IsCode(Token(kind, ""))
  {
    var c := sql[start];
    if IsQuote(c) {
      mode, code, kind := TOP_LEVEL.(quote := c), true, Quoted;
      OpensQuote(sql, start);
    } else {
      mode, code, kind := TOP_LEVEL, !IsSpace(c), if IsSpace(c) then Space else Code;
      OpensNothing(sql, start);
    }
  }

  lemma TagMode(tag: string)
    requires tag != ""
    ensures TOP_LEVEL.(heredoc := tag).Valid()
  {}

  /** The rest of a turn at top level, where no comment begins. */
  method ScanPlain(sql: string, start: nat) returns (i: nat, mode: Mode, code: bool, ghost kind: Kind)
    requires start < |sql| && sql[start] != ';'
    requires OpenerLen(sql[start..]) == 0 && !Opens(sql[start..], '/', '*')
    ensures start < i <= |sql| && mode.Valid() && kind != Semicolon
    ensures Opened(sql, start, i, kind, mode) && code == IsCode(Token(kind, ""))
  {
    var tag := HeredocDelimiterAt(sql, start);
    if tag == "" {
      i := start + 1;
      mode, code, kind := ScanByte(sql, start);
      return;
    }
    OpensHeredoc(sql, start, tag);
    TagMode(tag);
    return start + |tag|, TOP_LEVEL.(heredoc := tag), true, Heredoc;
  }

  /** One turn of the loop at top level, on anything but a semicolon. */
  method ScanTopLevel(sql: string, start: nat) returns (i: nat, mode: Mode, code: bool, ghost kind: Kind)
    requires start < |sql| && sql[start] != ';'
    ensures start < i <= |sql| && mode.Valid() && kind != Semicolon
    ensures Opened(sql, start, i, kind, mode) && code == IsCode(Token(kind, ""))
  {
    var opener := OpenerLen(sql[start..]);
    SlashStarAt(sql, start);
    if opener > 0 {
      OpensLineComment(sql, start, opener);
      return start + opener, TOP_LEVEL.(lineComment := true), false, LineComment;
    }
    if sql[start] == '/' && start + 1 < |sql| && sql[start + 1] == '*' {
      OpensBlockComment(sql, start);
      return start + 2, TOP_LEVEL.(depth := 1), false, BlockComment;
    }
    i, mode, code, kind := ScanPlain(sql, start);
  }

  lemma SlashStarAt(sql: string, i: nat)
    requires i < |sql|
    ensures Opens(sql[i..], '/', '*') <==> sql[i] == '/' && i + 1 < |sql| && sql[i + 1] == '*'
  {}

  lemma OpensLineComment(sql: string, i: nat, o: nat)
    requires i < |sql| && o == OpenerLen(sql[i..]) > 0
    ensures Opened(sql, i, i + o, LineComment, TOP_LEVEL.(lineComment := true))
  {
    assert sql[i..][o..] == sql[i + o..];
  }

  lemma OpensBlockComment(sql: string, i: nat)
    requires i < |sql| && OpenerLen(sql[i..]) == 0 && Opens(sql[i..], '/', '*')
    ensures Opened(sql, i, i + 2, BlockComment, TOP_LEVEL.(depth := 1))
  {
    assert sql[i..][2..] == sql[i + 2..];
  }

  lemma NoCommentAtDollar(s: string)
    requires s != "" && s[0] == '$'
    ensures OpenerLen(s) == 0 && !Opens(s, '/', '*')
  {}

  lemma TagBeginsWithDollar(s: string, tag: string)
    requires tag == HeredocTag(s) != ""
    ensures s != "" && s[0] == '$' && tag <= s
  {}

  lemma FirstHeredoc(s: string, tag: string)
    requires s != "" && tag == HeredocTag(s) != ""
    ensures First(s) == HeredocToken(s, tag)
  {
    TagBeginsWithDollar(s, tag);
    NoCommentAtDollar(s);
  }

  lemma HeredocOpened(s: string, tag: string, end: Option<nat>)
    requires tag != "" && tag <= s && (end.Some? ==> |tag| + end.value <= |s|)
    ensures OpenedBy(HeredocOf(s, tag, end), s, |tag|, Found(end, UnterminatedHeredoc), Heredoc)
  {}

  lemma OpensHeredoc(sql: string, i: nat, tag: string)
    requires i < |sql| && tag == HeredocTag(sql[i..]) != ""
    ensures Opened(sql, i, i + |tag|, Heredoc, TOP_LEVEL.(heredoc := tag))
  {
    TagBeginsWithDollar(sql[i..], tag);
    FirstHeredoc(sql[i..], tag);
    DropBoth(sql, i, |tag|);
    HeredocOpened(sql[i..], tag, HeredocEnd(sql[i + |tag|..], tag));
    InHeredoc(sql[i + |tag|..], tag);
  }

  lemma DropBoth(sql: string, i: nat, n: nat)
    requires i + n <= |sql|
    ensures sql[i..][n..] == sql[i + n..]
  {}

  lemma InHeredoc(rest: string, tag: string)
    requires tag != ""
    ensures Resume(rest, TOP_LEVEL.(heredoc := tag)) == Found(HeredocEnd(rest, tag), UnterminatedHeredoc)
  {}

  lemma OpensQuote(sql: string, i: nat)
    requires i < |sql| && IsQuote(sql[i])
    ensures Opened(sql, i, i + 1, Quoted, TOP_LEVEL.(quote := sql[i]))
  {
    assert sql[i..][1..] == sql[i + 1..];
    FirstQuote(sql[i..]);
  }

  lemma OpensNothing(sql: string, i: nat)
    requires i < |sql| && sql[i] != ';' && !IsQuote(sql[i])
    requires OpenerLen(sql[i..]) == 0 && !Opens(sql[i..], '/', '*') && HeredocTag(sql[i..]) == ""
    ensures Opened(sql, i, i + 1, if IsSpace(sql[i]) then Space else Code, TOP_LEVEL)
  {
    assert sql[i..][1..] == sql[i + 1..];
  }

  /** What the loop keeps: the builder holds exactly the source since the last top-level semicolon,
      and what the scanner must still return is what the whole text must return. */
  ghost predicate Scanned(sql: string, start: nat, i: nat, m: Mode, done: seq<string>, cur: string, code: bool) {
    && start <= i <= |sql| && m.Valid()
    && cur == sql[start..i]
    && (start == 0 || sql[start - 1] == ';')
    && Outcome(sql[i..], m, done, cur, code) == Split(sql)
  }

  /** One turn of the loop: inside a construct, or at top level on anything but a semicolon. */
  method ScanOne(sql: string, ghost start: nat, from: nat, m: Mode, ghost done: seq<string>, cur: string, code: bool)
    returns (i: nat, mode: Mode, current: string, hasCode: bool)
    requires from < |sql| && Scanned(sql, start, from, m, done, cur, code)
    requires m == TOP_LEVEL ==> sql[from] != ';'
    ensures from < i && Scanned(sql, start, i, mode, done, current, hasCode)
  {
    if m != TOP_LEVEL {
      i, mode := ScanInside(sql, from, m);
      hasCode := code;
      Advance(sql, from, i, m, mode, done, cur, code);
    } else {
      var bearing;
      ghost var kind;
      i, mode, bearing, kind := ScanTopLevel(sql, from);
      hasCode := code || bearing;
      Begin(sql, from, i, kind, mode, done, cur, code);
    }
    current := cur + sql[from..i];
    Glue(sql, start, from, i);
  }

  lemma ScannedAtStart(sql: string)
    ensures Scanned(sql, 0, 0, TOP_LEVEL, [], "", false)
  {
    assert sql[0..] == sql && "" + sql[..0] == "";
    if Lex(sql).Ok? {
      var toks := Lex(sql).value;
      assert [] + Statements(toks, "", false) == Statements(toks, "", false);
    }
  }

  lemma ScannedSemicolon(sql: string, start: nat, i: nat, done: seq<string>, cur: string, code: bool)
    requires i < |sql| && sql[i] == ';' && Scanned(sql, start, i, TOP_LEVEL, done, cur, code)
    ensures Scanned(sql, i + 1, i + 1, TOP_LEVEL, done + Emit(cur, code), "", false)
  {
    AtSemicolon(sql, i, done, cur, code);
    assert sql[i + 1..i + 1] == "";
  }

  method SplitStatements(sql: string) returns (result: Result<seq<string>>)
    ensures result == Split(sql)
  {
    var statements: seq<string> := [];
    var current := "";
    var mode := TOP_LEVEL;
    var hasCode := false;
    var i := 0;
    ghost var start := 0;
    ScannedAtStart(sql);
    while i < |sql|
      invariant i <= |sql| && Scanned(sql, start, i, mode, statements, current, hasCode)
      decreases |sql| - i
    {
      if mode == TOP_LEVEL && sql[i] == ';' {
        ScannedSemicolon(sql, start, i, statements, current, hasCode);
        statements := statements + Emit(current, hasCode);
        current, hasCode, i := "", false, i + 1;
        start := i;
      } else {
        i, mode, current, hasCode := ScanOne(sql, start, i, mode, statements, current, hasCode);
      }
    }
    result := Finished(sql, i, mode, statements, current, hasCode);
  }

  /** The tests behind the loop. */
  method Finished(sql: string, i: nat, mode: Mode, statements: seq<string>, current: string, hasCode: bool)
    returns (result: Result<seq<string>>)
    requires i == |sql| && mode.Valid()
    ensures result == Outcome(sql[i..], mode, statements, current, hasCode)
  {
    assert sql[i..] == "";
    OutcomeAtEnd(mode, statements, current, hasCode);
    if mode.quote != '\0' { return Err(UnterminatedQuote); }
    if mode.heredoc != "" { return Err(UnterminatedHeredoc); }
    if mode.depth > 0 { return Err(UnterminatedComment); }
    return Ok(statements + Emit(current, hasCode));
  }
}
