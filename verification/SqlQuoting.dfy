/** quoteIdentifier, quoteString and the two statements of DatabaseSchema (internal/clickhouse/client.go). */
module SqlQuoting {
  import opened SqlText
  import opened SqlLexer
  import opened SqlGrammar
  import opened SqlSplit
  import opened SqlStability
  import opened SqlResplit
  import opened SqlJoin
  import opened SqlKinds
  import opened SqlTrivia
  import opened SqlRewrite

  function QuoteIdentifier(v: string): string { "`" + ReplaceAll(v, '`', "``") + "`" }

  function QuoteString(v: string): string {
    "'" + ReplaceAll(ReplaceAll(v, '\\', "\\\\"), '\'', "\\'") + "'"
  }

  // ---------------------------------------------------------------- reading a quoted token back

  /** The byte that ClickHouse reads for a backslash and `c`. */
  function Unescape(c: char): char {
    match c
    case 'n' => '\n'
    case 't' => '\t'
    case 'r' => '\r'
    case '0' => '\0'
    case 'f' => '\U{C}'
    case 'v' => '\U{B}'
    case 'b' => '\U{8}'
    case 'a' => '\U{7}'
    case _ => c
  }

  /** The value of the inside of a quoted token: escape pairs, doubled quotes, other bytes. */
  function Decode(s: string, q: char): string {
    if s == "" then ""
    else if s[0] == '\\' then if |s| == 1 then "" else [Unescape(s[1])] + Decode(s[2..], q)
    else if s[0] == q then if |s| == 1 then "" else [q] + Decode(s[2..], q)
    else [s[0]] + Decode(s[1..], q)
  }

  function Inside(token: string): string
    requires |token| >= 2
  {
    token[1..|token| - 1]
  }

  /** The scanner reads `text` as one quoted token, and the token stands for `v`. */
  ghost predicate ReadsBack(text: string, v: string, rest: string) {
    && |text| >= 2
    && First(text + rest) == Ok(Token(Quoted, text))
    && Decode(Inside(text), text[0]) == v
  }

  lemma {:induction false} EscapedString(v: string)
    ensures var e := ReplaceAll(ReplaceAll(v, '\\', "\\\\"), '\'', "\\'");
      QuoteBody(e, '\'') && Decode(e, '\'') == v
  {
    if v != "" {
      var inner := ReplaceAll(v[1..], '\\', "\\\\");
      var more := ReplaceAll(inner, '\'', "\\'");
      EscapedString(v[1..]);
      EscapedByte(v[0], inner);
      var e := ReplaceAll(ReplaceAll(v, '\\', "\\\\"), '\'', "\\'");
      if v[0] == '\\' || v[0] == '\'' {
        assert e == ['\\', v[0]] + more;
        assert e[2..] == more;
      } else {
        assert e == [v[0]] + more;
        assert e[1..] == more;
      }
      assert [v[0]] + v[1..] == v;
    }
  }

  lemma EscapedByte(c: char, inner: string)
    ensures ReplaceAll((if c == '\\' then "\\\\" else [c]) + inner, '\'', "\\'")
         == (if c == '\\' then "\\\\" else if c == '\'' then "\\'" else [c]) + ReplaceAll(inner, '\'', "\\'")
  {
    var s := (if c == '\\' then "\\\\" else [c]) + inner;
    if c == '\\' {
      assert s[1..] == "\\" + inner && s[1..][1..] == inner;
      assert "\\" + ("\\" + ReplaceAll(inner, '\'', "\\'")) == "\\\\" + ReplaceAll(inner, '\'', "\\'");
    } else {
      assert s[1..] == inner;
    }
  }

  lemma QuotedReadsBack(q: char, body: string, v: string, rest: string)
    requires IsQuote(q) && QuoteBody(body, q) && Decode(body, q) == v && (rest != "" ==> rest[0] != q)
    ensures ReadsBack([q] + body + [q], v, rest)
    ensures TokenAt(Token(Quoted, [q] + body + [q]), rest)
  {
    var text := [q] + body + [q];
    assert text[1..|text| - 1] == body;
    assert IsQuotedText(text, q);
    FirstComplete(Token(Quoted, text), rest);
  }

  /** For every value: one token, without a top-level semicolon, that stands for the value. */
  lemma QuoteStringReadsBack(v: string, rest: string)
    requires rest != "" ==> rest[0] != '\''
    ensures ReadsBack(QuoteString(v), v, rest)
    ensures TokenAt(Token(Quoted, QuoteString(v)), rest)
  {
    EscapedString(v);
    QuotedReadsBack('\'', ReplaceAll(ReplaceAll(v, '\\', "\\\\"), '\'', "\\'"), v, rest);
  }

  lemma {:induction false} EscapedIdentifier(v: string)
    requires '\\' !in v
    ensures var e := ReplaceAll(v, '`', "``"); QuoteBody(e, '`') && Decode(e, '`') == v
  {
    if v != "" {
      EscapedIdentifier(v[1..]);
      var e, more := ReplaceAll(v, '`', "``"), ReplaceAll(v[1..], '`', "``");
      assert if v[0] == '`' then e[2..] == more else e[1..] == more;
      assert [v[0]] + v[1..] == v;
    }
  }

  /** One backtick in front of doubled backticks never closes where it should. */
  lemma {:induction false} OddBacktick(w: string)
    ensures !QuoteBody("`" + ReplaceAll(w, '`', "``"), '`')
  {
    if w != "" {
      var s, more := "`" + ReplaceAll(w, '`', "``"), ReplaceAll(w[1..], '`', "``");
      if w[0] == '`' {
        OddBacktick(w[1..]);
        assert s == "``" + ("`" + more);
        assert s[2..] == "`" + more;
      } else {
        assert s == "`" + [w[0]] + more;
      }
    }
  }

  /** A backslash makes the identifier lose a byte, if it is read as one token at all. */
  lemma {:induction false} BackslashLosesByte(v: string)
    requires QuoteBody(ReplaceAll(v, '`', "``"), '`')
    ensures |Decode(ReplaceAll(v, '`', "``"), '`')| <= |v|
    ensures '\\' in v ==> |Decode(ReplaceAll(v, '`', "``"), '`')| < |v|
    decreases |v|, 1
  {
    var e := ReplaceAll(v, '`', "``");
    if v != "" {
      var more := ReplaceAll(v[1..], '`', "``");
      if v[0] == '`' {
        assert e[2..] == more;
        BackslashLosesByte(v[1..]);
      } else if v[0] != '\\' {
        assert e[1..] == more;
        BackslashLosesByte(v[1..]);
      } else {
        BackslashPair(v, e);
      }
    }
  }

  lemma {:induction false} BackslashPair(v: string, e: string)
    requires v != "" && v[0] == '\\' && e == ReplaceAll(v, '`', "``") && QuoteBody(e, '`')
    ensures |Decode(e, '`')| < |v|
    decreases |v|, 0
  {
    assert e[0] == '\\' && e[1..] == ReplaceAll(v[1..], '`', "``");
    assert |v| >= 2;
    var w := v[2..];
    assert v[1..][1..] == w;
    if v[1] == '`' {
      assert e[2..] == "`" + ReplaceAll(w, '`', "``");
      OddBacktick(w);
    } else {
      assert e[2..] == ReplaceAll(w, '`', "``");
      BackslashLosesByte(w);
    }
  }

  /** An identifier reads back exactly when it has no backslash. */
  lemma QuoteIdentifierReadsBack(v: string, rest: string)
    requires rest != "" ==> rest[0] != '`'
    ensures ReadsBack(QuoteIdentifier(v), v, rest) <==> '\\' !in v
    ensures '\\' !in v ==> TokenAt(Token(Quoted, QuoteIdentifier(v)), rest)
  {
    var body, text := ReplaceAll(v, '`', "``"), QuoteIdentifier(v);
    if '\\' !in v {
      EscapedIdentifier(v);
      QuotedReadsBack('`', body, v, rest);
    }
    if ReadsBack(text, v, rest) {
      FirstSound(text + rest);
      var q :| IsQuotedText(text, q);
      assert Inside(text) == body && text[0] == '`';
      BackslashLosesByte(v);
    }
  }

  /** No backslash of the name escapes a backtick or ends the name. */
  predicate Paired(v: string) {
    if v == "" then true
    else if v[0] == '\\' then |v| >= 2 && v[1] != '`' && Paired(v[2..])
    else Paired(v[1..])
  }

  lemma {:induction false} NoBackslashIsPaired(v: string)
    requires '\\' !in v
    ensures Paired(v)
  {
    if v != "" { NoBackslashIsPaired(v[1..]); }
  }

  lemma {:induction false} BodyIsPaired(v: string)
    ensures QuoteBody(ReplaceAll(v, '`', "``"), '`') <==> Paired(v)
    decreases |v|
  {
    var e := ReplaceAll(v, '`', "``");
    if v != "" {
      var more := ReplaceAll(v[1..], '`', "``");
      if v[0] == '`' {
        assert e[2..] == more;
        BodyIsPaired(v[1..]);
      } else if v[0] != '\\' {
        assert e[1..] == more;
        BodyIsPaired(v[1..]);
      } else if |v| == 1 {
        assert e == "\\";
      } else {
        PairedPair(v, e);
      }
    }
  }

  lemma {:induction false} PairedPair(v: string, e: string)
    requires |v| >= 2 && v[0] == '\\' && e == ReplaceAll(v, '`', "``")
    ensures QuoteBody(e, '`') <==> Paired(v)
    decreases |v| - 1
  {
    var w := v[2..];
    assert e[0] == '\\' && e[1..] == ReplaceAll(v[1..], '`', "``") && v[1..][1..] == w;
    if v[1] == '`' {
      assert e[2..] == "`" + ReplaceAll(w, '`', "``");
      OddBacktick(w);
    } else {
      assert e[2..] == ReplaceAll(w, '`', "``");
      BodyIsPaired(w);
    }
  }

  /** An identifier is one quoted token exactly when none of its backslashes escapes a backtick or its end. */
  lemma QuoteIdentifierIsToken(v: string, rest: string)
    requires rest != "" ==> rest[0] != '`'
    ensures TokenAt(Token(Quoted, QuoteIdentifier(v)), rest) <==> Paired(v)
  {
    var body, text := ReplaceAll(v, '`', "``"), QuoteIdentifier(v);
    assert text[1..|text| - 1] == body && text[0] == text[|text| - 1] == '`';
    BodyIsPaired(v);
    assert IsQuotedText(text, '`') <==> QuoteBody(body, '`');
  }

  /** The name that does not read back: its backslash takes the closing backtick. */
  lemma BackslashMisreads() returns (v: string)
    ensures v == "\\" && !ReadsBack(QuoteIdentifier(v), v, "")
  {
    v := "\\";
    QuoteIdentifierReadsBack(v, "");
  }

  // ---------------------------------------------------------------- the statements of DatabaseSchema

  /** SQL text put together from plain text and printed values. */
  datatype Fragments =
    | Nothing
    | Plain(text: string, rest: Fragments)
    | Value(value: string, rest: Fragments)
    | Name(value: string, rest: Fragments)

  function Render(f: Fragments): string {
    match f
    case Nothing => ""
    case Plain(text, rest) => text + Render(rest)
    case Value(v, rest) => QuoteString(v) + Render(rest)
    case Name(v, rest) => QuoteIdentifier(v) + Render(rest)
  }

  /** Printed values stand between plain texts, and the last plain text ends firmly. */
  ghost predicate Printable(f: Fragments) {
    match f
    case Nothing => true
    case Plain(text, rest) =>
      text != "" && AllPlain(text) && (rest.Nothing? ==> !IsBlank(text[|text| - 1])) && Printable(rest)
    case Value(_, rest) => (rest.Nothing? || rest.Plain?) && Printable(rest)
    case Name(v, rest) => Paired(v) && (rest.Nothing? || rest.Plain?) && Printable(rest)
  }

  function Tokens(f: Fragments): seq<Token> {
    match f
    case Nothing => []
    case Plain(text, rest) => Singles(text) + Tokens(rest)
    case Value(v, rest) => [Token(Quoted, QuoteString(v))] + Tokens(rest)
    case Name(v, rest) => [Token(Quoted, QuoteIdentifier(v))] + Tokens(rest)
  }

  ghost predicate Spells(toks: seq<Token>, s: string) {
    Chain(toks, "") && Text(toks) == s && NoSemicolon(toks)
  }

  lemma PlainSpells(text: string, toks: seq<Token>, s: string)
    requires AllPlain(text) && Spells(toks, s)
    ensures Spells(Singles(text) + toks, text + s)
  {
    PlainChain(text, s + "");
    ChainAppend(Singles(text), toks, "");
    TextAppend(Singles(text), toks);
  }

  lemma TokenSpells(t: Token, toks: seq<Token>, s: string)
    requires t.kind == Quoted && t.text != "" && TokenAt(t, s) && Spells(toks, s)
    ensures Spells([t] + toks, t.text + s)
  {
    assert ([t] + toks)[1..] == toks && s + "" == s;
  }

  lemma RenderBegins(f: Fragments)
    requires Printable(f) && f.Plain?
    ensures Render(f) != "" && IsPlain(Render(f)[0])
  {
    assert Render(f)[0] == f.text[0];
  }

  lemma {:induction false} RenderSpells(f: Fragments)
    requires Printable(f)
    ensures Spells(Tokens(f), Render(f))
  {
    match f {
      case Nothing =>
      case Plain(text, rest) =>
        RenderSpells(rest);
        PlainSpells(text, Tokens(rest), Render(rest));
      case Value(v, rest) =>
        RenderSpells(rest);
        if rest.Plain? { RenderBegins(rest); }
        QuoteStringReadsBack(v, Render(rest));
        TokenSpells(Token(Quoted, QuoteString(v)), Tokens(rest), Render(rest));
      case Name(v, rest) =>
        RenderSpells(rest);
        if rest.Plain? { RenderBegins(rest); }
        QuoteIdentifierIsToken(v, Render(rest));
        TokenSpells(Token(Quoted, QuoteIdentifier(v)), Tokens(rest), Render(rest));
    }
  }

  lemma QuotesEndFirm(v: string)
    ensures var s := QuoteString(v); s[|s| - 1] == '\''
    ensures var s := QuoteIdentifier(v); s[|s| - 1] == '`'
  {}

  function Printed(f: Fragments): string
    requires !f.Nothing?
  {
    match f
    case Plain(text, _) => text
    case Value(v, _) => QuoteString(v)
    case Name(v, _) => QuoteIdentifier(v)
  }

  lemma PrintedEnds(f: Fragments)
    requires Printable(f) && !f.Nothing? && f.rest.Nothing?
    ensures var s := Printed(f); s != "" && !IsBlank(s[|s| - 1])
  {
    if !f.Plain? { QuotesEndFirm(f.value); }
  }

  lemma {:induction false} RenderEnds(f: Fragments)
    requires Printable(f) && !f.Nothing?
    ensures Render(f) != "" && !IsBlank(Render(f)[|Render(f)| - 1])
  {
    assert Render(f) == Printed(f) + Render(f.rest);
    if f.rest.Nothing? {
      PrintedEnds(f);
      assert Printed(f) + "" == Printed(f);
    } else {
      RenderEnds(f.rest);
      LastBehind(Printed(f), Render(f.rest));
    }
  }

  ghost predicate IsQueryWord(word: string) {
    word != "" && word in QUERY_WORDS && Upper(word) == word && (forall k :: 0 <= k < |word| ==> IsLetter(word[k]))
  }

  lemma FirstWord(word: string, y: string)
    requires IsQueryWord(word)
    ensures ClassifyBody(StatementBody(word + (" " + y))) == Classified(Query)
  {
    var x := word + (" " + y);
    assert x[0] == word[0] && x[|word|] == ' ' && x[..|word|] == word;
    LetterIsBody(x);
    LetterLenIs(x, |word|);
  }

  lemma WordSpells(word: string, toks: seq<Token>, s: string) returns (r: seq<Token>)
    requires IsQueryWord(word) && Spells(toks, s)
    ensures Spells(r, word + (" " + s)) && HasCode(r)
  {
    WordIsPlain(word);
    PlainSpells(" ", toks, s);
    PlainSpells(word, Singles(" ") + toks, " " + s);
    r := Singles(word) + (Singles(" ") + toks);
    assert r[0] == Singles(word)[0] == Single(word[0]);
  }

  lemma WordIsPlain(word: string)
    requires forall k :: 0 <= k < |word| ==> IsLetter(word[k])
    ensures AllPlain(word)
  {}

  /** A query word and printable text behind it make one query, whatever values the text quotes. */
  lemma PrintedQuery(word: string, f: Fragments)
    requires IsQueryWord(word) && Printable(f) && !f.Nothing?
    ensures var x := word + (" " + Render(f)); Split(x) == Ok([x]) && Classify(x) == Classified(Query)
  {
    var s := Render(f);
    RenderSpells(f);
    RenderEnds(f);
    FirstWord(word, s);
    var r := WordSpells(word, Tokens(f), s);
    WordIsFirm(word, s);
    QueryIsStatement(r, word + (" " + s));
  }

  lemma WordIsFirm(word: string, s: string)
    requires IsQueryWord(word) && s != "" && !IsBlank(s[|s| - 1])
    ensures Firm(word + (" " + s))
  {
    LastBehind(" ", s);
    LastBehind(word, " " + s);
    assert (word + (" " + s))[0] == word[0];
  }

  function CreateDatabaseQuery(database: string): string {
    "SHOW" + (" " + Render(Plain("CREATE DATABASE ", Name(database, Nothing))))
  }

  function Engines(): Fragments {
    Plain(" ORDER BY ", Plain("multiIf(engine ", Plain("IN (",
          Value("View", Comma("MaterializedView", Comma("LiveView", Comma("WindowView", EngineRank())))))))
  }

  function Comma(name: string, more: Fragments): Fragments { Plain(", ", Value(name, more)) }

  function EngineRank(): Fragments {
    Plain("), 2, engine = ", Value("Dictionary", Plain(", 1, 0), name)", Nothing)))
  }

  function Arrays(more: Fragments): Fragments {
    Plain("groupArray(name) ", Plain("AS names, ", Plain("groupArray(", Plain("engine) AS ", Plain("engines, ",
    Plain("groupArray(", Plain("create_table", Plain("_query) ", Plain("AS statements ", Plain("FROM (", more))))))))))
  }

  function Tables(more: Fragments): Fragments {
    Plain("SELECT name, ", Plain("engine, ", Plain("create_table", Plain("_query FROM ", Plain("system.tables ",
    Plain("WHERE ", Plain("database = ", more)))))))
  }

  function ObjectsQuery(database: string): string {
    "SELECT" + (" " + Render(Arrays(Tables(Value(database, Engines())))))
  }

  lemma ShowIsQueryWord()
    ensures IsQueryWord("SHOW")
  {
    UpperStays("SHOW");
    assert QUERY_WORDS[1] == "SHOW";
  }

  lemma SelectIsQueryWord()
    ensures IsQueryWord("SELECT")
  {
    UpperStays("SELECT");
    assert QUERY_WORDS[0] == "SELECT";
  }

  lemma PlainPrints(text: string, more: Fragments)
    requires text != "" && AllPlain(text) && Printable(more) && !more.Nothing?
    ensures Printable(Plain(text, more))
  {}

  lemma ValuePrints(value: string, more: Fragments)
    requires Printable(more) && more.Plain?
    ensures Printable(Value(value, more)) && Printable(Comma(value, more))
  {
    PlainPrints(", ", Value(value, more));
  }

  lemma RankTexts()
    ensures AllPlain(", 1, 0), name)") && AllPlain("), 2, engine = ")
  {}

  lemma LastPrints(text: string)
    requires AllPlain(text) && text != "" && !IsBlank(text[|text| - 1])
    ensures Printable(Plain(text, Nothing))
  {}

  lemma EngineRankPrints()
    ensures Printable(EngineRank())
  {
    RankTexts();
    LastPrints(", 1, 0), name)");
    ValuePrints("Dictionary", Plain(", 1, 0), name)", Nothing));
    PlainPrints("), 2, engine = ", Value("Dictionary", Plain(", 1, 0), name)", Nothing)));
  }

  lemma EngineTexts()
    ensures AllPlain(" ORDER BY ") && AllPlain("multiIf(engine ") && AllPlain("IN (")
  {}

  lemma EnginesPrint()
    ensures Printable(Engines())
  {
    var a := EngineRank();
    EngineRankPrints();
    ValuePrints("WindowView", a);
    ValuePrints("LiveView", Comma("WindowView", a));
    ValuePrints("MaterializedView", Comma("LiveView", Comma("WindowView", a)));
    var b := Comma("MaterializedView", Comma("LiveView", Comma("WindowView", a)));
    ValuePrints("View", b);
    EngineTexts();
    PlainsPrint(" ORDER BY ", "multiIf(engine ", "IN (", Value("View", b));
  }

  lemma TableTexts()
    ensures AllPlain("SELECT name, ") && AllPlain("engine, ") && AllPlain("create_table") && AllPlain("_query FROM ")
    ensures AllPlain("system.tables ") && AllPlain("WHERE ") && AllPlain("database = ")
  {}

  lemma ArrayTexts()
    ensures AllPlain("groupArray(name) ") && AllPlain("AS names, ") && AllPlain("groupArray(")
      && AllPlain("engine) AS ")
    ensures AllPlain("engines, ") && AllPlain("create_table") && AllPlain("_query) ") && AllPlain("AS statements ")
    ensures AllPlain("FROM (")
  {}

  lemma PlainsPrint(a: string, b: string, c: string, more: Fragments)
    requires AllPlain(a) && AllPlain(b) && AllPlain(c) && a != "" && b != "" && c != ""
    requires Printable(more) && !more.Nothing?
    ensures Printable(Plain(a, Plain(b, Plain(c, more))))
  {
    PlainPrints(c, more);
    PlainPrints(b, Plain(c, more));
    PlainPrints(a, Plain(b, Plain(c, more)));
  }

  lemma TablesPrint(more: Fragments)
    requires Printable(more) && !more.Nothing?
    ensures Printable(Tables(more))
  {
    TableTexts();
    PlainPrints("database = ", more);
    var a := Plain("database = ", more);
    PlainsPrint("_query FROM ", "system.tables ", "WHERE ", a);
    var b := Plain("_query FROM ", Plain("system.tables ", Plain("WHERE ", a)));
    PlainsPrint("SELECT name, ", "engine, ", "create_table", b);
  }

  lemma ArraysPrint(more: Fragments)
    requires Printable(more) && !more.Nothing?
    ensures Printable(Arrays(more))
  {
    ArrayTexts();
    PlainPrints("FROM (", more);
    var a := Plain("FROM (", more);
    PlainsPrint("create_table", "_query) ", "AS statements ", a);
    var b := Plain("create_table", Plain("_query) ", Plain("AS statements ", a)));
    PlainsPrint("engine) AS ", "engines, ", "groupArray(", b);
    var c := Plain("engine) AS ", Plain("engines, ", Plain("groupArray(", b)));
    PlainsPrint("groupArray(name) ", "AS names, ", "groupArray(", c);
  }

  lemma NameBehindWords(words: string, v: string)
    requires AllPlain(words)
    ensures Lex(words + QuoteIdentifier(v)) == Ok(Singles(words) + [Token(Quoted, QuoteIdentifier(v))]) <==> Paired(v)
  {
    var t := Token(Quoted, QuoteIdentifier(v));
    QuoteIdentifierIsToken(v, "");
    ChainAppend(Singles(words), [t], "");
    assert [t][1..] == [] && Text([]) + "" == "";
    if Paired(v) {
      LexPlainToken(words, t);
    } else if Lex(words + t.text) == Ok(Singles(words) + [t]) {
      LexIsChain(words + t.text);
    }
  }

  lemma PlainTogether(a: string, b: string)
    requires AllPlain(a) && AllPlain(b)
    ensures AllPlain(a + b)
  {}

  function CreateDatabaseWords(): string { "SHOW" + (" " + "CREATE DATABASE ") }

  lemma CreateDatabaseText(database: string)
    ensures CreateDatabaseQuery(database) == CreateDatabaseWords() + QuoteIdentifier(database)
    ensures AllPlain(CreateDatabaseWords())
  {
    CreateDatabaseIsPlain();
    PlainTogether(" ", "CREATE DATABASE ");
    PlainTogether("SHOW", " " + "CREATE DATABASE ");
    NameBehindText("SHOW", "CREATE DATABASE ", database);
  }

  lemma NameBehindText(word: string, text: string, v: string)
    ensures word + (" " + Render(Plain(text, Name(v, Nothing)))) == (word + (" " + text)) + QuoteIdentifier(v)
  {
    var q := QuoteIdentifier(v);
    assert Render(Nothing) == "" && q + "" == q;
    assert Render(Name(v, Nothing)) == q;
    assert word + (" " + (text + q)) == (word + (" " + text)) + q;
  }

  lemma CreateDatabaseIsPlain()
    ensures AllPlain("SHOW") && AllPlain(" ") && AllPlain("CREATE DATABASE ")
  {
    assert AllPlain("CREATE ") && AllPlain("DATABASE ");
    PlainTogether("CREATE ", "DATABASE ");
    assert "CREATE " + "DATABASE " == "CREATE DATABASE ";
  }

  /** What the scanner finds behind the quoted name: nothing, when the quote closes where it was meant to; a rest of
      the name, when a backslash makes it close early; and no close at all otherwise. */
  function BehindName(v: string): Option<string> {
    var q := QuoteIdentifier(v);
    match QuoteEnd(q[1..], '`')
    case None => None
    case Some(n) => Some(q[1 + n..])
  }

  /** Nothing behind a separator bears code. */
  ghost predicate StaysOne(rest: string) { Lex(rest).Ok? && CodePieces(Pieces(Lex(rest).value)[1..]) == [] }

  lemma LexName(v: string) returns (name: Token)
    ensures name.kind == Quoted && name.text != "" && name.text[0] == '`'
    ensures match BehindName(v)
      case None => Lex(QuoteIdentifier(v)).Err?
      case Some(rest) => QuoteIdentifier(v) == name.text + rest && Lex(QuoteIdentifier(v)) == Then([name], Lex(rest))
  {
    var q := QuoteIdentifier(v);
    name := Token(Quoted, "`");
    FirstQuote(q);
    if BehindName(v).Some? {
      var n := QuoteEnd(q[1..], '`').value;
      name := Token(Quoted, q[..1 + n]);
    }
  }

  lemma WordsThenName(words: string, v: string) returns (name: Token)
    requires AllPlain(words)
    ensures name.kind == Quoted && name.text != "" && name.text[0] == '`'
    ensures match BehindName(v)
      case None => Lex(words + QuoteIdentifier(v)).Err?
      case Some(rest) =>
        && QuoteIdentifier(v) == name.text + rest
        && Lex(words + QuoteIdentifier(v)) == Then(Singles(words) + [name], Lex(rest))
  {
    name := LexName(v);
    PlainChain(words, "");
    ChainIsLex(Singles(words));
    LexSealed(words, QuoteIdentifier(v));
    if BehindName(v).Some? { ThenThen(Singles(words), [name], Lex(BehindName(v).value)); }
  }

  lemma NameHasCode(words: string, name: Token)
    requires AllPlain(words) && name.kind == Quoted
    ensures NoSemicolon(Singles(words) + [name]) && HasCode(Singles(words) + [name])
    ensures Text(Singles(words) + [name]) == words + name.text
  {
    PlainChain(words, "");
    HasCodeAppend(Singles(words), [name]);
    TextAppend(Singles(words), [name]);
    assert [name][1..] == [] && Text([name]) == name.text;
  }

  /** The statements of the words, the name, and what follows the name. */
  lemma NameStatements(head: seq<Token>, rest: seq<Token>)
    requires NoSemicolon(head) && HasCode(head)
    ensures Statements(head + rest, "", false)
         == [TrimSpace(Text(head) + Text(Pieces(rest)[0]))] + CodePieces(Pieces(rest)[1..])
  {
    StatementsAfterCode(head, rest, "", false);
    assert "" + Text(head) == Text(head);
    StatementsArePieces(rest, Text(head), true);
  }

  lemma TrimKeepsHead(h: string, y: string) returns (z: string)
    requires h != "" && !IsBlank(h[0]) && y != "" && !IsBlank(y[0])
    ensures TrimSpace(h + y) == h + z
  {
    var s := h + y;
    assert s[0] == h[0] && s[|h|] == y[0];
    TrimKeeps(s, |h|);
    TrimLeftFirm(s);
    TrimRightPrefix(s);
    z := TrimSpace(s)[|h|..];
    assert TrimSpace(s)[..|h|] == s[..|h|] == h;
  }

  /** Whatever follows the backtick behind the words, the first word decides. */
  lemma WordsDecide(word: string, text: string, y: string)
    requires IsQueryWord(word) && y != "" && !IsBlank(y[0])
    ensures ClassifyBody(StatementBody(TrimSpace((word + (" " + text)) + y))) == Classified(Query)
  {
    assert (word + (" " + text))[0] == word[0];
    var z := TrimKeepsHead(word + (" " + text), y);
    TextBehind(word, " " + text, z);
    TextBehind(" ", text, z);
    FirstWord(word, text + z);
  }

  lemma PairedClosesThere(words: string, v: string, name: Token)
    requires AllPlain(words) && name.kind == Quoted
    requires match BehindName(v)
      case None => Lex(words + QuoteIdentifier(v)).Err?
      case Some(rest) =>
        && QuoteIdentifier(v) == name.text + rest
        && Lex(words + QuoteIdentifier(v)) == Then(Singles(words) + [name], Lex(rest))
    ensures BehindName(v) == Some("") <==> Paired(v)
  {
    NameBehindWords(words, v);
    if BehindName(v).Some? {
      var rest, head, whole := BehindName(v).value, Singles(words), Token(Quoted, QuoteIdentifier(v));
      if rest == "" { assert name.text + "" == name.text && head + [name] + [] == head + [name]; }
      if Lex(words + QuoteIdentifier(v)) == Ok(head + [whole]) {
        SameToken(head, name, Lex(rest).value, whole);
        assert |name.text + rest| == |name.text|;
      }
    }
  }

  lemma SameToken(head: seq<Token>, a: Token, more: seq<Token>, b: Token)
    requires head + [a] + more == head + [b]
    ensures a == b
  {
    assert (head + [a] + more)[|head|] == a && (head + [b])[|head|] == b;
  }

  /** SHOW CREATE DATABASE is one query exactly when the quote around the name closes and nothing bears code behind a
      separator in what follows the close; it is that statement as it stands exactly when no separator follows at all.
      Nothing follows the close exactly when no backslash of the name escapes a backtick or its end, and then the text
      lexes as its words and one quoted name. */
  lemma CreateDatabaseIsQuery(database: string)
    ensures var name, rest := Token(Quoted, QuoteIdentifier(database)), BehindName(database);
      var x := CreateDatabaseQuery(database);
      && (Classify(x) == Classified(Query) <==> rest.Some? && StaysOne(rest.value))
      && (Split(x) == Ok([x]) <==> rest.Some? && Lex(rest.value).Ok? && NoSemicolon(Lex(rest.value).value))
      && (rest == Some("") <==> Paired(database))
      && (Paired(database) ==> Split(x) == Ok([x]) && Classify(x) == Classified(Query))
      && (Lex(x) == Ok(Singles(CreateDatabaseWords()) + [name]) <==> Paired(database))
  {
    var words := CreateDatabaseWords();
    CreateDatabaseText(database);
    var name := WordsThenName(words, database);
    PairedClosesThere(words, database, name);
    NameBehindWords(words, database);
    NameHasCode(words, name);
    NothingStaysOne();
    if BehindName(database).Some? { CreateDatabaseSplits(database, name, BehindName(database).value); }
  }

  lemma NothingStaysOne()
    ensures StaysOne("") && Lex("") == Ok([])
  {
    assert Pieces([])[1..] == [];
  }

  lemma CreateDatabaseSplits(database: string, name: Token, rest: string)
    requires var words := CreateDatabaseWords();
      && CreateDatabaseQuery(database) == words + QuoteIdentifier(database)
      && QuoteIdentifier(database) == name.text + rest
      && Lex(words + QuoteIdentifier(database)) == Then(Singles(words) + [name], Lex(rest))
      && NoSemicolon(Singles(words) + [name]) && HasCode(Singles(words) + [name])
      && Text(Singles(words) + [name]) == words + name.text
    requires name.text != "" && name.text[0] == '`'
    ensures var x := CreateDatabaseQuery(database);
      && (Classify(x) == Classified(Query) <==> StaysOne(rest))
      && (Split(x) == Ok([x]) <==> Lex(rest).Ok? && NoSemicolon(Lex(rest).value))
  {
    var words, x := CreateDatabaseWords(), CreateDatabaseQuery(database);
    var head := Singles(words) + [name];
    WordsFirm(words, database);
    SplitToItself(x);
    if Lex(rest).Ok? {
      var more := Lex(rest).value;
      HasCodeAppend(head, more);
      NoSemicolonBehind(head, more);
      NameStatements(head, more);
      TextBehind(words, name.text, Text(Pieces(more)[0]));
      ShowIsQueryWord();
      WordsDecide("SHOW", "CREATE DATABASE ", name.text + Text(Pieces(more)[0]));
    }
  }

  lemma NoSemicolonBehind(a: seq<Token>, b: seq<Token>)
    requires NoSemicolon(a)
    ensures NoSemicolon(a + b) <==> NoSemicolon(b)
  {
    assert forall k :: 0 <= k < |b| ==> (a + b)[|a| + k] == b[k];
  }

  lemma WordsFirm(words: string, v: string)
    requires words == CreateDatabaseWords()
    ensures Firm(words + QuoteIdentifier(v))
  {
    QuotesEndFirm(v);
    LastBehind(words, QuoteIdentifier(v));
    assert words[0] == 'S';
  }

  lemma BackslashNeverCloses(v: string)
    requires v == "\\"
    ensures BehindName(v) == None
  {
    var e := QuoteIdentifier(v)[1..];
    assert ReplaceAll(v, '`', "``") == v && e == "\\`" && e[2..] == "";
  }

  /** The name for which the statement is no query: the quote never closes. */
  lemma CreateDatabaseFails() returns (database: string)
    ensures database == "\\" && Classify(CreateDatabaseQuery(database)) != Classified(Query)
  {
    database := "\\";
    BackslashNeverCloses(database);
    CreateDatabaseIsQuery(database);
  }

  /** The listing of a database's objects is one query for every name. */
  lemma ObjectsIsQuery(database: string)
    ensures var x := ObjectsQuery(database); Split(x) == Ok([x]) && Classify(x) == Classified(Query)
  {
    EnginesPrint();
    ValuePrints(database, Engines());
    TablesPrint(Value(database, Engines()));
    ArraysPrint(Tables(Value(database, Engines())));
    SelectIsQueryWord();
    PrintedQuery("SELECT", Arrays(Tables(Value(database, Engines()))));
  }

  // ---------------------------------------------------------------- what the statements say

  lemma RenderThree(a: string, b: string, c: string, more: Fragments)
    ensures Render(Plain(a, Plain(b, Plain(c, more)))) == a + (b + (c + Render(more)))
  {
    assert Render(Plain(b, Plain(c, more))) == b + (c + Render(more));
  }

  lemma RenderComma(name: string, more: Fragments)
    ensures Render(Comma(name, more)) == ", " + (QuoteString(name) + Render(more))
  {}

  /** The statement that asks for the definition of a database. */
  lemma CreateDatabaseTells(database: string)
    ensures CreateDatabaseQuery(database) == "SHOW" + (" " + ("CREATE DATABASE " + QuoteIdentifier(database)))
  {
    var name := Name(database, Nothing);
    assert Render(name) == QuoteIdentifier(database) + "" == QuoteIdentifier(database);
    assert Render(Plain("CREATE DATABASE ", name)) == "CREATE DATABASE " + Render(name);
  }

  lemma ArraysTell(more: Fragments)
    ensures Render(Arrays(more)) ==
      "groupArray(name) " + ("AS names, " + ("groupArray(" + ("engine) AS " + ("engines, " + ("groupArray("
      + ("create_table" + ("_query) " + ("AS statements " + ("FROM (" + Render(more))))))))))
  {
    var a := Plain("_query) ", Plain("AS statements ", Plain("FROM (", more)));
    var b := Plain("engines, ", Plain("groupArray(", Plain("create_table", a)));
    RenderThree("_query) ", "AS statements ", "FROM (", more);
    RenderThree("engines, ", "groupArray(", "create_table", a);
    RenderThree("AS names, ", "groupArray(", "engine) AS ", b);
  }

  lemma TablesTell(more: Fragments)
    ensures Render(Tables(more)) ==
      "SELECT name, " + ("engine, " + ("create_table" + ("_query FROM " + ("system.tables " + ("WHERE "
      + ("database = " + Render(more)))))))
  {
    var a := Plain("system.tables ", Plain("WHERE ", Plain("database = ", more)));
    RenderThree("system.tables ", "WHERE ", "database = ", more);
    RenderThree("engine, ", "create_table", "_query FROM ", a);
  }

  lemma RankTells()
    ensures Render(EngineRank()) == "), 2, engine = " + (QuoteString("Dictionary") + ", 1, 0), name)")
  {
    RenderLast(", 1, 0), name)");
    RenderValue("Dictionary", Plain(", 1, 0), name)", Nothing));
  }

  lemma RenderLast(text: string)
    ensures Render(Plain(text, Nothing)) == text
  {
    assert Render(Nothing) == "" && text + "" == text;
  }

  lemma RenderValue(value: string, more: Fragments)
    ensures Render(Value(value, more)) == QuoteString(value) + Render(more)
  {}

  lemma EnginesTell()
    ensures Render(Engines()) ==
      " ORDER BY " + ("multiIf(engine " + ("IN (" + (QuoteString("View") + (", " + (QuoteString("MaterializedView")
      + (", " + (QuoteString("LiveView") + (", " + (QuoteString("WindowView") + Render(EngineRank()))))))))))
  {
    var c := Comma("WindowView", EngineRank());
    var b := Comma("LiveView", c);
    var a := Comma("MaterializedView", b);
    RenderComma("WindowView", EngineRank());
    RenderComma("LiveView", c);
    RenderComma("MaterializedView", b);
    RenderValue("View", a);
    RenderThree(" ORDER BY ", "multiIf(engine ", "IN (", Value("View", a));
  }

  /** The statement that lists the objects of a database: names, engines and definitions, of that database alone, views
      behind the tables that they read. */
  lemma ObjectsQueryTells(database: string)
    ensures ObjectsQuery(database) == "SELECT" + (" " + Render(Arrays(Tables(Value(database, Engines())))))
    ensures Render(Value(database, Engines())) == QuoteString(database) + Render(Engines())
  {}
}
