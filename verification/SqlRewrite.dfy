/** The text that Execute and DryRun send (internal/clickhouse/client.go). */
module SqlRewrite {
  import opened SqlText
  import opened SqlLexer
  import opened SqlGrammar
  import opened SqlSplit
  import opened SqlStability
  import opened SqlResplit
  import opened SqlJoin
  import opened SqlClassify
  import opened SqlKinds

  const JSON_FORMAT := " FORMAT JSON"

  /** What the proofs need of the clause: a space, then plain text on one line that ends firmly. */
  ghost predicate IsClause(f: string) {
    |f| >= 2 && f[0] == ' ' && !IsBlank(f[|f| - 1]) && AllPlain(f) && '\n' !in f
  }

  lemma JsonFormatIsClause()
    ensures IsClause(JSON_FORMAT)
  {}

  /** strings.TrimSuffix(q, ";") */
  function DropSemicolon(q: string): string {
    if q != "" && q[|q| - 1] == ';' then q[..|q| - 1] else q
  }

  /** The body of Execute's request; `formatted` tells that the text already ends with a FORMAT clause. */
  function SentText(sql: string, kind: StatementKind, formatted: bool): string {
    var q := TrimSpace(sql);
    if kind == Query && !formatted then DropSemicolon(q) + JSON_FORMAT else q
  }

  /** What is sent: the trimmed text as it is, or, for a query without a FORMAT clause, that text without one final
      semicolon and with FORMAT JSON behind it. */
  lemma SentTells(sql: string, kind: StatementKind, formatted: bool)
    ensures var q, sent := TrimSpace(sql), SentText(sql, kind, formatted);
      if kind != Query || formatted then sent == q
      else if q != "" && q[|q| - 1] == ';' then sent == q[..|q| - 1] + " FORMAT JSON"
      else sent == q + " FORMAT JSON"
  {}

  /** A text that classifies and that splitting left as it is. */
  lemma ClassifiedOutput(s: string, x: string)
    requires Split(s).Ok? && x in Split(s).value && Classify(x).Classified?
    ensures IsStatement(x)
  {
    SplitAgain(s, x);
    SplitToItself(x);
  }

  /** A chain without separators, bearing code and spelling a firm text, is a statement. */
  lemma ChainIsStatement(toks: seq<Token>)
    requires Chain(toks, "") && NoSemicolon(toks) && HasCode(toks) && Firm(Text(toks))
    ensures IsStatement(Text(toks)) && Lex(Text(toks)) == Ok(toks)
  {
    ChainIsLex(toks);
  }

  // ---------------------------------------------------------------- how an appended clause is lexed

  lemma LastChain(toks: seq<Token>) returns (init: seq<Token>, t: Token)
    requires Chain(toks, "") && toks != []
    ensures toks == init + [t] && t.text != "" && TokenAt(t, "") && Chain(init, t.text)
    ensures Text(toks) == Text(init) + t.text
  {
    init, t := toks[..|toks| - 1], toks[|toks| - 1];
    assert toks == init + [t];
    ChainAppend(init, [t], "");
    TextAppend(init, [t]);
    assert [t][1..] == [] && Text([t]) == t.text;
    assert Text([]) + "" == "" && t.text + "" == t.text;
  }

  lemma NotSemicolonByte(t: Token)
    requires t.text != "" && TokenAt(t, "") && !IsOpen(t) && t.kind != Semicolon
    ensures t.text[|t.text| - 1] != ';'
  {
    LastByte(t, "");
  }

  /** A statement that does not end inside a line comment does not end with a semicolon. */
  lemma NoLastSemicolon(toks: seq<Token>)
    requires Chain(toks, "") && NoSemicolon(toks) && !EndsOpen(toks)
    ensures DropSemicolon(Text(toks)) == Text(toks)
  {
    if toks != [] {
      var init, t := LastChain(toks);
      assert t == toks[|toks| - 1];
      NotSemicolonByte(t);
      LastBehind(Text(init), t.text);
    }
  }

  /** When lexing ends at top level and the text does not end with '#', the clause is code. */
  lemma ClauseIsCode(toks: seq<Token>, f: string)
    requires Chain(toks, "") && !EndsOpen(toks) && !EndsHash(toks) && IsClause(f)
    ensures Chain(toks + Singles(f), "") && Text(toks + Singles(f)) == Text(toks) + f
  {
    ChainExtend(toks, f);
    PlainChain(f, "");
    assert f + "" == f;
    ChainAppend(toks, Singles(f), "");
    TextAppend(toks, Singles(f));
  }

  /** A line comment, or a '#' at the end, takes in the clause behind it. */
  lemma SwallowClause(init: seq<Token>, t: Token, c: string, f: string) returns (u: Token)
    requires t.text != "" && TokenAt(t, "") && Chain(init, t.text) && (IsOpen(t) || IsHash(t)) && IsClause(f)
    requires c == DropSemicolon(t.text) <= t.text
    ensures u == Token(LineComment, c + f) && Chain(init + [u], "") && Text(init + [u]) == Text(init) + u.text
  {
    u := Token(LineComment, c + f);
    CommentGrows(t, c, f);
    var cut := t.text[|c|..];
    assert t.text == c + cut;
    ChainCut(init, c, cut);
    ChainBefore(init, c, f);
    ChainLast(init, u);
  }

  /** Otherwise the clause ends up inside a line comment, which is then the last token. */
  lemma ClauseIsComment(toks: seq<Token>, f: string) returns (init: seq<Token>, t: Token, u: Token)
    requires Chain(toks, "") && (EndsOpen(toks) || EndsHash(toks)) && IsClause(f)
    ensures toks == init + [t] && (IsHash(t) || IsOpen(t)) && u.kind == LineComment
    ensures Chain(init + [u], "") && Text(init + [u]) == DropSemicolon(Text(toks)) + f
    ensures Text(init) <= DropSemicolon(Text(toks))
  {
    init, t := LastChain(toks);
    assert t == toks[|toks| - 1];
    var c := DropSemicolon(t.text);
    DropSemicolonLast(Text(init), t.text);
    u := SwallowClause(init, t, c, f);
    TextBehind(Text(init), c, f);
  }

  lemma DropSemicolonLast(a: string, c: string)
    requires c != ""
    ensures DropSemicolon(a + c) == a + DropSemicolon(c) && DropSemicolon(c) <= c
  {
    LastBehind(a, c);
    if c[|c| - 1] == ';' { assert (a + c)[..|a + c| - 1] == a + c[..|c| - 1]; }
  }

  lemma ChainLast(init: seq<Token>, u: Token)
    requires u.text != "" && TokenAt(u, "") && Chain(init, u.text)
    ensures Chain(init + [u], "") && Text(init + [u]) == Text(init) + u.text
  {
    assert [u][1..] == [] && Text([u]) == u.text && Text([]) + "" == "" && u.text + "" == u.text;
    ChainAppend(init, [u], "");
    TextAppend(init, [u]);
  }

  /** The comment, without a final semicolon and with the clause behind it, is still a line comment. */
  lemma CommentGrows(t: Token, c: string, f: string)
    requires t.text != "" && TokenAt(t, "") && (IsHash(t) || IsOpen(t)) && c == DropSemicolon(t.text)
    requires IsClause(f)
    ensures c != "" && TokenAt(Token(LineComment, c + f), "")
  {
    var u := c + f;
    assert u + "" == u && t.text + "" == t.text;
    if IsHash(t) {
      assert u[0] == '#' && u[1] == ' ';
    } else {
      LineCommentTwo(t, "");
      assert t.text[1] != ';';
      assert u[0] == t.text[0] && u[1] == t.text[1];
    }
    forall k | 0 <= k < |u| - 1
      ensures u[k] != '\n'
    {
      if k < |c| { assert u[k] == t.text[k]; } else { assert u[k] == f[k - |c|]; }
    }
  }

  // ---------------------------------------------------------------- the first word stays

  lemma {:induction false} SkippedPrefix(a: seq<Token>, b: seq<Token>)
    requires forall t :: t in a ==> t.text != ""
    ensures SkippedLen(a) <= |Text(a)|
    ensures SkippedLen(a) < |Text(a)| ==> SkippedLen(a + b) == SkippedLen(a)
    ensures SkippedLen(a) == |Text(a)| ==> SkippedLen(a + b) == |Text(a)| + SkippedLen(b)
  {
    if a == [] {
      assert a + b == b;
    } else {
      assert a[0] in a;
      assert (a + b)[0] == a[0] && (a + b)[1..] == a[1..] + b;
      SkippedPrefix(a[1..], b);
    }
  }

  lemma {:induction false} LetterLenIs(s: string, n: nat)
    requires n <= |s| && (forall k :: 0 <= k < n ==> IsLetter(s[k])) && (n < |s| ==> !IsLetter(s[n]))
    ensures LetterLen(s) == n
  {
    if n > 0 { LetterLenIs(s[1..], n - 1); }
  }

  lemma {:induction false} LetterLenSpec(s: string)
    ensures forall k :: 0 <= k < LetterLen(s) ==> IsLetter(s[k])
    ensures LetterLen(s) < |s| ==> !IsLetter(s[LetterLen(s)])
  {
    if s != "" && IsLetter(s[0]) { LetterLenSpec(s[1..]); }
  }

  /** A body cut behind its first word and continued with a space keeps a query a query. */
  lemma QueryWordStays(body: string, cut: string, f: string)
    requires ClassifyBody(body) == Classified(Query) && IsClause(f)
    requires cut <= body && LetterLen(body) <= |cut|
    ensures ClassifyBody(cut + f) == Classified(Query)
  {
    var n, b := LetterLen(body), cut + f;
    LetterLenSpec(body);
    forall k | 0 <= k <= n
      ensures b[k] == if k < |cut| then body[k] else ' '
    {}
    LetterLenIs(b, n);
    assert b[..n] == body[..n];
  }

  lemma {:induction false} ChainNonEmpty(toks: seq<Token>, rest: string)
    requires Chain(toks, rest)
    ensures forall t :: t in toks ==> t.text != ""
  {
    if toks != [] { ChainNonEmpty(toks[1..], rest); }
  }

  /** The body of a chain's text, when something is left behind the trivia. */
  lemma BodyOfChain(toks: seq<Token>)
    requires Chain(toks, "")
    ensures SkippedLen(toks) <= |Text(toks)| && StatementBody(Text(toks)) == Text(toks)[SkippedLen(toks)..]
  {
    TriviaChain(toks);
    BodyIsSuffix(Text(toks));
  }

  lemma HashIsNoQuery()
    ensures ClassifyBody("#") == Rejected(Unclassifiable) && ClassifyBody("") == Rejected(Unclassifiable)
  {}

  /** The query word stands in front of a final line comment or '#'. */
  lemma QueryBeforeComment(init: seq<Token>, t: Token)
    requires Chain(init + [t], "") && (IsHash(t) || IsOpen(t))
    requires ClassifyBody(StatementBody(Text(init + [t]))) == Classified(Query)
    ensures SkippedLen(init) < |Text(init)|
  {
    BodyOfChain(init + [t]);
    ChainNonEmpty(init + [t], "");
    assert forall k :: 0 <= k < |init| ==> init[k] == (init + [t])[k];
    SkippedPrefix(init, [t]);
    TextAppend(init, [t]);
    assert [t][1..] == [] && Text([t]) == t.text;
    if SkippedLen(init) == |Text(init)| {
      OnlyComment(Text(init), t);
    }
  }

  lemma OnlyComment(a: string, t: Token)
    requires IsHash(t) || IsOpen(t)
    ensures SkippedLen([t]) <= |t.text|
    ensures (a + t.text)[|a| + SkippedLen([t])..] == if IsHash(t) then "#" else ""
    ensures ClassifyBody((a + t.text)[|a| + SkippedLen([t])..]) == Rejected(Unclassifiable)
  {
    assert [t][1..] == [];
    HashIsNoQuery();
  }

  lemma {:induction false} NotSkippedIsCode(toks: seq<Token>)
    requires NoSemicolon(toks) && SkippedLen(toks) < |Text(toks)|
    ensures HasCode(toks)
  {
    if IsSkipped(toks[0]) { NotSkippedIsCode(toks[1..]); }
  }

  /** What stays true of a query when a clause is put behind it. */
  ghost predicate StaysQuery(toks: seq<Token>, sent: string) {
    && Chain(toks, "") && NoSemicolon(toks) && HasCode(toks) && Text(toks) == sent && Firm(sent)
    && ClassifyBody(StatementBody(sent)) == Classified(Query)
  }

  lemma ClauseEndsFirm(x: string, f: string)
    requires x != "" && !IsBlank(x[0]) && IsClause(f)
    ensures Firm(x + f)
  {
    LastBehind(x, f);
  }

  lemma EmptyIsNoQuery(x: string, n: nat)
    requires n <= |x| && ClassifyBody(x[n..]) == Classified(Query)
    ensures n < |x|
  {
    HashIsNoQuery();
    assert x[n..] != "";
  }

  /** The query word at offset `n` is inside `cut`, so the clause behind `cut` leaves it alone. */
  lemma QueryAt(x: string, cut: string, n: nat, f: string)
    requires n <= |cut| <= |x| && cut <= x && LetterLen(x[n..]) <= |cut| - n
    requires ClassifyBody(x[n..]) == Classified(Query) && IsClause(f)
    requires StatementBody(cut + f) == (cut + f)[n..]
    ensures ClassifyBody(StatementBody(cut + f)) == Classified(Query)
  {
    assert (cut + f)[n..] == cut[n..] + f;
    QueryWordStays(x[n..], cut[n..], f);
  }

  lemma BodyBeforeClause(toks: seq<Token>, f: string)
    requires Chain(toks, "") && Chain(toks + Singles(f), "") && Text(toks + Singles(f)) == Text(toks) + f
    requires ClassifyBody(StatementBody(Text(toks))) == Classified(Query)
    ensures var x, n := Text(toks), SkippedLen(toks);
      n < |x| && StatementBody(x) == x[n..] && StatementBody(x + f) == (x + f)[n..]
  {
    ChainNonEmpty(toks, "");
    BodyOfChain(toks);
    EmptyIsNoQuery(Text(toks), SkippedLen(toks));
    SkippedPrefix(toks, Singles(f));
    BodyOfChain(toks + Singles(f));
  }

  lemma CodeClauseBody(toks: seq<Token>, f: string)
    requires Chain(toks, "") && Chain(toks + Singles(f), "") && Text(toks + Singles(f)) == Text(toks) + f && IsClause(f)
    requires ClassifyBody(StatementBody(Text(toks))) == Classified(Query)
    ensures ClassifyBody(StatementBody(Text(toks) + f)) == Classified(Query)
  {
    BodyBeforeClause(toks, f);
    QueryAt(Text(toks), Text(toks), SkippedLen(toks), f);
  }

  lemma ClauseSeparatesNothing(toks: seq<Token>, f: string)
    requires NoSemicolon(toks) && IsClause(f)
    ensures NoSemicolon(toks + Singles(f))
  {}

  lemma CodeClauseKeepsQuery(toks: seq<Token>, f: string)
    requires StaysQuery(toks, Text(toks)) && !EndsOpen(toks) && !EndsHash(toks) && IsClause(f)
    ensures StaysQuery(toks + Singles(f), Text(toks) + f)
  {
    ClauseIsCode(toks, f);
    ClauseSeparatesNothing(toks, f);
    HasCodeAppend(toks, Singles(f));
    ClauseEndsFirm(Text(toks), f);
    CodeClauseBody(toks, f);
  }

  lemma CommentClauseKeepsQuery(toks: seq<Token>, f: string) returns (r: seq<Token>)
    requires StaysQuery(toks, Text(toks)) && (EndsOpen(toks) || EndsHash(toks)) && IsClause(f)
    ensures StaysQuery(r, DropSemicolon(Text(toks)) + f)
  {
    var x, cut := Text(toks), DropSemicolon(Text(toks));
    var init, t, u := ClauseIsComment(toks, f);
    r := init + [u];
    QueryBeforeComment(init, t);
    var n := SkippedLen(init);
    NoSemicolonInit(init, t, u);
    NotSkippedIsCode(init);
    HasCodeAppend(init, [u]);
    CutKeepsFirst(x, Text(init), cut);
    ClauseEndsFirm(cut, f);
    BodyOfInit(init, t, u);
    CutBehindWord(x, n);
    QueryAt(x, cut, n, f);
  }

  lemma CutKeepsFirst(x: string, a: string, cut: string)
    requires a != "" && a <= cut && cut == DropSemicolon(x) && Firm(x)
    ensures cut != "" && !IsBlank(cut[0]) && cut <= x
  {}

  lemma NoSemicolonInit(init: seq<Token>, t: Token, u: Token)
    requires NoSemicolon(init + [t]) && u.kind == LineComment
    ensures NoSemicolon(init) && NoSemicolon(init + [u])
  {
    assert forall k :: 0 <= k < |init| ==> init[k] == (init + [t])[k];
  }

  lemma BodyOfInit(init: seq<Token>, t: Token, u: Token)
    requires Chain(init + [t], "") && Chain(init + [u], "") && SkippedLen(init) < |Text(init)|
    ensures var n := SkippedLen(init);
      && n <= |Text(init + [t])| && StatementBody(Text(init + [t])) == Text(init + [t])[n..]
      && n <= |Text(init + [u])| && StatementBody(Text(init + [u])) == Text(init + [u])[n..]
  {
    ChainNonEmpty(init + [t], "");
    assert forall k :: 0 <= k < |init| ==> init[k] == (init + [t])[k];
    SkippedPrefix(init, [t]);
    SkippedPrefix(init, [u]);
    BodyOfChain(init + [t]);
    BodyOfChain(init + [u]);
  }

  lemma CutBehindWord(x: string, n: nat)
    requires n < |DropSemicolon(x)|
    ensures DropSemicolon(x)[n..] <= x[n..] && LetterLen(x[n..]) <= |DropSemicolon(x)| - n
  {
    LetterLenSpec(x[n..]);
    var body := x[n..];
    assert LetterLen(body) == |body| ==> IsLetter(body[|body| - 1]);
  }

  // ---------------------------------------------------------------- main results

  /** What Execute sends for a statement is one statement of the same kind, whether or not the text
      already had a FORMAT clause. */
  lemma SentKeepsStatement(x: string, kind: StatementKind, formatted: bool)
    requires IsStatement(x) && Classify(x) == Classified(kind)
    ensures var sent := SentText(x, kind, formatted);
      Split(sent) == Ok([sent]) && Classify(sent) == Classified(kind)
  {
    TrimFixed(x);
    SplitToItself(x);
    if kind == Query && !formatted {
      var toks := Lex(x).value;
      LexIsChain(x);
      JsonFormatIsClause();
      var r;
      if EndsOpen(toks) || EndsHash(toks) {
        r := CommentClauseKeepsQuery(toks, JSON_FORMAT);
      } else {
        CodeClauseKeepsQuery(toks, JSON_FORMAT);
        NoLastSemicolon(toks);
        r := toks + Singles(JSON_FORMAT);
      }
      QueryIsStatement(r, DropSemicolon(x) + JSON_FORMAT);
    }
  }

  lemma QueryIsStatement(toks: seq<Token>, sent: string)
    requires StaysQuery(toks, sent)
    ensures Split(sent) == Ok([sent]) && Classify(sent) == Classified(Query)
  {
    ChainIsStatement(toks);
    SplitToItself(sent);
  }

  /** For every output of the splitter that classifies. */
  lemma ExecuteKeepsStatement(s: string, x: string, kind: StatementKind, formatted: bool)
    requires Split(s).Ok? && x in Split(s).value && Classify(x) == Classified(kind)
    ensures var sent := SentText(x, kind, formatted);
      Split(sent) == Ok([sent]) && Classify(sent) == Classified(kind)
  {
    ClassifiedOutput(s, x);
    SentKeepsStatement(x, kind, formatted);
  }

  lemma CodeBehind(toks: seq<Token>, f: string)
    requires Chain(toks, "") && !EndsOpen(toks) && !EndsHash(toks) && IsClause(f)
    ensures Lex(Text(toks) + f) == Ok(toks + Singles(f))
  {
    ClauseIsCode(toks, f);
    ChainIsLex(toks + Singles(f));
  }

  lemma CommentBehind(toks: seq<Token>, f: string)
    requires Chain(toks, "") && (EndsOpen(toks) || EndsHash(toks)) && IsClause(f)
    ensures Lex(DropSemicolon(Text(toks)) + f) != Ok(toks + Singles(f))
  {
    var init, t, u := ClauseIsComment(toks, f);
    ChainIsLex(init + [u]);
    assert |toks + Singles(f)| == |init| + 1 + |f|;
    assert |init + [u]| == |init| + 1;
  }

  /** The FORMAT clause takes effect, every byte of it a token of its own behind the query, exactly when the query
      ends at top level and not with '#'. */
  lemma FormatIsCode(x: string)
    requires IsStatement(x)
    ensures Lex(SentText(x, Query, false)) == Ok(Lex(x).value + Singles(JSON_FORMAT)) <==>
      !EndsOpen(Lex(x).value) && !EndsHash(Lex(x).value)
  {
    var toks := Lex(x).value;
    LexIsChain(x);
    TrimFixed(x);
    JsonFormatIsClause();
    if EndsOpen(toks) || EndsHash(toks) {
      CommentBehind(toks, JSON_FORMAT);
    } else {
      NoLastSemicolon(toks);
      CodeBehind(toks, JSON_FORMAT);
    }
  }

  lemma LettersThen(w: string, t: string)
    requires (forall k :: 0 <= k < |w| ==> IsLetter(w[k])) && t != "" && !IsLetter(t[0])
    ensures LetterLen(w + t) == |w| && (w + t)[..|w|] == w
  {
    LetterLenIs(w + t, |w|);
  }

  lemma ClassOfWord(body: string, w: string)
    requires LetterLen(body) == |w| && body[..|w|] == w && Upper(w) == w && w != "" && w in QUERY_WORDS
    ensures ClassifyBody(body) == Classified(Query)
  {}

  lemma WordClass(w: string, t: string)
    requires w in QUERY_WORDS && Upper(w) == w && w != "" && (forall k :: 0 <= k < |w| ==> IsLetter(w[k]))
    requires t != "" && !IsLetter(t[0])
    ensures ClassifyBody(w + t) == Classified(Query)
  {
    LettersThen(w, t);
    ClassOfWord(w + t, w);
  }

  lemma ShowIsWord()
    ensures "SHOW" in QUERY_WORDS && Upper("SHOW") == "SHOW" && (forall k :: 0 <= k < 4 ==> IsLetter("SHOW"[k]))
  {
    UpperStays("SHOW");
    assert QUERY_WORDS[1] == "SHOW";
  }

  /** A query whose appended clause is swallowed by the comment at its end. */
  lemma FormatIsSwallowed() returns (x: string)
    ensures x == "SHOW" + "--" && IsStatement(x) && Classify(x) == Classified(Query)
    ensures Lex(SentText(x, Query, false)) != Ok(Lex(x).value + Singles(JSON_FORMAT))
  {
    x := "SHOW" + "--";
    ShowIsCode();
    DashedStatement("SHOW", x);
    ShowIsWord();
    WordClass("SHOW", "--");
    LetterIsBody(x);
    SplitToItself(x);
    FormatIsCode(x);
  }

  // ---------------------------------------------------------------- dry runs

  /** DryRun explains queries as a query tree and everything else as a syntax tree. */
  function ExplainPrefix(x: string): string {
    var body := StatementBody(x);
    var w := Upper(body[..LetterLen(body)]);
    if w == "SELECT" || w == "WITH" then "EXPLAIN QUERY TREE " else "EXPLAIN AST "
  }

  ghost predicate IsExplain(p: string) {
    |p| > 7 && p[..7] == "EXPLAIN" && p[7] == ' ' && AllPlain(p)
  }

  lemma ExplainIsQuery(p: string, x: string)
    requires IsExplain(p)
    ensures ClassifyBody(p + x) == Classified(Query)
  {
    ExplainIsWord();
    WordClass("EXPLAIN", p[7..] + x);
    WordInFront(p, "EXPLAIN", x);
  }

  lemma WordInFront(p: string, w: string, x: string)
    requires w <= p
    ensures w + (p[|w|..] + x) == p + x
  {
    TextBehind(w, p[|w|..], x);
    assert w + p[|w|..] == p;
  }

  lemma ExplainIsWord()
    ensures "EXPLAIN" in QUERY_WORDS && Upper("EXPLAIN") == "EXPLAIN"
    ensures forall k :: 0 <= k < 7 ==> IsLetter("EXPLAIN"[k])
  {
    UpperStays("EXPLAIN");
    assert QUERY_WORDS[4] == "EXPLAIN";
  }

  lemma ExplainedStatement(p: string, x: string)
    requires IsExplain(p) && IsStatement(x)
    ensures Split(p + x) == Ok([p + x]) && Classify(p + x) == Classified(Query)
  {
    ExplainedTokens(p, x, Lex(x).value);
    ExplainedIsFirm(p, x);
    ExplainIsQuery(p, x);
    LetterIsBody(p + x);
    QueryIsStatement(Singles(p) + Lex(x).value, p + x);
  }

  lemma ExplainedTokens(p: string, x: string, toks: seq<Token>)
    requires IsExplain(p) && IsStatement(x) && toks == Lex(x).value
    ensures var all := Singles(p) + toks;
      Chain(all, "") && Text(all) == p + x && NoSemicolon(all) && HasCode(all)
  {
    LexIsChain(x);
    PlainChain(p, x + "");
    ChainAppend(Singles(p), toks, "");
    TextAppend(Singles(p), toks);
    HasCodeAppend(Singles(p), toks);
  }

  lemma ExplainedIsFirm(p: string, x: string)
    requires IsExplain(p) && Firm(x)
    ensures Firm(p + x) && IsLetter((p + x)[0])
  {
    LastBehind(p, x);
    assert p[0] == p[..7][0] == 'E';
  }

  /** The text that a dry run sends is one query, for every output of the splitter that classifies. */
  lemma DryRunKeepsStatement(s: string, x: string)
    requires Split(s).Ok? && x in Split(s).value && Classify(x).Classified?
    ensures var sent := ExplainPrefix(x) + x;
      Split(sent) == Ok([sent]) && Classify(sent) == Classified(Query)
  {
    ClassifiedOutput(s, x);
    ExplainPrefixes();
    ExplainedStatement(ExplainPrefix(x), x);
  }

  lemma ExplainPrefixes()
    ensures IsExplain("EXPLAIN QUERY TREE ") && IsExplain("EXPLAIN AST ")
  {
    assert "EXPLAIN QUERY TREE "[..7] == "EXPLAIN" == "EXPLAIN AST "[..7];
  }
}
