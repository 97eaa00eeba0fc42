/** Classify (internal/clickhouse/client.go): the kind of a single statement. */
module SqlKinds {
  import opened SqlText
  import opened SqlLexer
  import opened SqlSplit
  import opened SqlStability
  import opened SqlResplit
  import opened SqlClassify

  datatype StatementKind = Query | Dml | Ddl | Grant

  datatype ClassifyError =
    | BadLexis(error: LexError)
    | SqlRequired
    | NotOneStatement
    | Unclassifiable
    | Unsupported(word: string)

  datatype Verdict = Classified(kind: StatementKind) | Rejected(error: ClassifyError)

  // ---------------------------------------------------------------- the statement body

  function TrimLeftTrivia(s: string): string {
    if s != "" && IsTriviaByte(s[0]) then TrimLeftTrivia(s[1..]) else s
  }

  /** The statement behind its leading trivia. */
  function StatementBody(x: string): string { TrimLeftTrivia(x[Trivia(x)..]) }

  /** Trimming the body again takes nothing off: the scanner already went past all white space. */
  lemma BodyIsSuffix(x: string)
    ensures StatementBody(x) == x[Trivia(x)..]
  {
    TriviaStops(x);
  }

  lemma StopsBehind(x: string, n: nat)
    requires n <= |x| && Trivia(x) == n + Trivia(x[n..])
    requires Trivia(x[n..]) < |x[n..]| ==> !IsTriviaByte(x[n..][Trivia(x[n..])])
    ensures Trivia(x) < |x| ==> !IsTriviaByte(x[Trivia(x)])
  {}

  lemma {:induction false} TriviaStops(x: string)
    ensures Trivia(x) < |x| ==> !IsTriviaByte(x[Trivia(x)])
    decreases |x|
  {
    if x == "" { return; }
    var o := OpenerLen(x);
    if IsTriviaByte(x[0]) {
      TriviaStops(x[1..]);
      StopsBehind(x, 1);
    } else if o > 0 {
      var n := LineEnd(x[o..]);
      TriviaComment(x, o, n);
      TriviaStops(x[o + n..]);
      StopsBehind(x, o + n);
    } else if Opens(x, '/', '*') {
      TriviaBlock(x, BlockLen(x));
      TriviaStops(x[BlockLen(x)..]);
      StopsBehind(x, BlockLen(x));
    }
  }

  // ---------------------------------------------------------------- the first word

  predicate IsLetter(c: char) { 'a' <= c <= 'z' || 'A' <= c <= 'Z' }

  function LetterLen(s: string): (r: nat)
    ensures r <= |s|
  {
    if s != "" && IsLetter(s[0]) then 1 + LetterLen(s[1..]) else 0
  }

  function UpperByte(c: char): char {
    if 'a' <= c <= 'z' then (c as int - 32) as char else c
  }

  function Upper(s: string): string {
    if s == "" then "" else [UpperByte(s[0])] + Upper(s[1..])
  }

  lemma {:induction false} UpperStays(s: string)
    requires forall k :: 0 <= k < |s| ==> 'A' <= s[k] <= 'Z'
    ensures Upper(s) == s && LetterLen(s) == |s|
  {
    if s != "" {
      UpperStays(s[1..]);
      assert [s[0]] + s[1..] == s;
    }
  }

  function SpaceLen(s: string): (r: nat)
    ensures r <= |s|
  {
    if s != "" && IsTriviaByte(s[0]) then 1 + SpaceLen(s[1..]) else 0
  }

  /** `word` stands at offset `k`, with word boundaries around it. */
  predicate WordAt(s: string, k: nat, word: string) {
    && Has(s, k, word)
    && (k > 0 ==> !IsWordByte(s[k - 1]))
    && (k + |word| < |s| ==> !IsWordByte(s[k + |word|]))
  }

  /** alterMutation: ALTER TABLE followed somewhere by the word UPDATE or DELETE. */
  predicate AlterMutation(body: string) {
    var u := Upper(body);
    "ALTER" <= u &&
    var n := SpaceLen(u[5..]);
    n > 0 && WordAt(u, 5 + n, "TABLE") &&
    exists k: nat | k < |u| :: k >= 5 + n + 5 && (WordAt(u, k, "UPDATE") || WordAt(u, k, "DELETE"))
  }

  const QUERY_WORDS := ["SELECT", "SHOW", "DESCRIBE", "DESC", "EXPLAIN", "WITH", "EXISTS", "CHECK"]
  const DML_WORDS := ["INSERT", "UPDATE", "DELETE", "OPTIMIZE"]
  const DDL_WORDS := ["CREATE", "DROP", "TRUNCATE", "RENAME", "ATTACH", "DETACH", "SYSTEM", "KILL"]

  function ClassifyBody(body: string): Verdict {
    var w := Upper(body[..LetterLen(body)]);
    if w == "" then Rejected(Unclassifiable)
    else if w in QUERY_WORDS then Classified(Query)
    else if w in DML_WORDS then Classified(Dml)
    else if w == "ALTER" then Classified(if AlterMutation(body) then Dml else Ddl)
    else if w in DDL_WORDS then Classified(Ddl)
    else if w == "GRANT" || w == "REVOKE" then Classified(Grant)
    else Rejected(Unsupported(w))
  }

  function ClassifyList(list: seq<string>): Verdict {
    if list == [] then Rejected(SqlRequired)
    else if |list| != 1 then Rejected(NotOneStatement)
    else ClassifyBody(StatementBody(list[0]))
  }

  function Classify(sql: string): Verdict {
    match Split(sql)
    case Err(e) => Rejected(BadLexis(e))
    case Ok(list) => ClassifyList(list)
  }

  // ---------------------------------------------------------------- white space and comments in front

  /** White space and complete comments: every token is sealed and none is code. */
  ghost predicate IsTriviaText(p: string) {
    Lex(p).Ok? && forall t :: t in Lex(p).value ==> IsComment(t) && Sealed(t)
  }

  lemma {:induction false} TriviaInFront(toks: seq<Token>, y: string)
    requires Chain(toks, y) && forall t :: t in toks ==> IsComment(t)
    ensures Trivia(Text(toks) + y) == |Text(toks)| + Trivia(y)
  {
    if toks == [] {
      assert "" + y == y;
    } else {
      assert toks[0] in toks;
      TriviaInFront(toks[1..], y);
      TriviaToken(toks[0], Text(toks[1..]) + y);
      TextBehind(toks[0].text, Text(toks[1..]), y);
    }
  }

  lemma TriviaTextInFront(p: string, y: string)
    requires IsTriviaText(p)
    ensures Trivia(p + y) == |p| + Trivia(y)
  {
    var toks := Lex(p).value;
    LexIsChain(p);
    ChainSealed(toks, "", y);
    assert "" + y == y;
    TriviaInFront(toks, y);
  }

  lemma {:induction false} SpacesInFront(a: string, y: string)
    requires AllSpace(a)
    ensures Trivia(a + y) == |a| + Trivia(y)
  {
    if a == "" {
      assert a + y == y;
    } else {
      SpacesInFront(a[1..], y);
      assert (a + y)[1..] == a[1..] + y;
    }
  }

  /** The blanks in front of trivia are white space to the lexer. */
  lemma {:induction false} LeadingBlanks(toks: seq<Token>, a: string, y: string)
    requires Chain(toks, "") && Text(toks) == a + y && AllBlank(a)
    requires forall t :: t in toks ==> IsComment(t)
    ensures AllSpace(a)
  {
    if a != "" {
      var t := toks[0];
      assert t in toks;
      assert (a + y)[0] == a[0] && Text(toks)[0] == t.text[0];
      BlankFirst(t, Text(toks[1..]) + "");
      assert (a + y)[1..] == a[1..] + y && Text(toks)[1..] == Text(toks[1..]);
      LeadingBlanks(toks[1..], a[1..], y);
    }
  }

  lemma TriviaBehindTrimmed(p: string, x: string)
    requires IsTriviaText(p)
    ensures Trivia(TrimLeft(p) + x) == |TrimLeft(p)| + Trivia(x)
  {
    var q := TrimLeft(p);
    var a := TrimLeftParts(p);
    LexIsChain(p);
    LeadingBlanks(Lex(p).value, a, q);
    TriviaTextInFront(p, x);
    SpacesInFront(a, q + x);
    TextBehind(a, q, x);
  }

  /** Trivia in front of a trimmed statement does not change its body. */
  lemma BodyBehindTrivia(p: string, x: string)
    requires IsTriviaText(p)
    ensures StatementBody(TrimLeft(p) + x) == StatementBody(x)
  {
    var q := TrimLeft(p);
    TriviaBehindTrimmed(p, x);
    BodyIsSuffix(q + x);
    BodyIsSuffix(x);
    DropBehind(q, x, Trivia(x));
  }

  lemma DropBehind(q: string, x: string, n: nat)
    requires n <= |x|
    ensures (q + x)[|q| + n..] == x[n..]
  {}

  lemma {:induction false} StatementsBehindTrivia(p: seq<Token>, toks: seq<Token>, cur: string)
    requires forall t :: t in p ==> IsComment(t)
    ensures Statements(p + toks, cur, false) == Statements(toks, cur + Text(p), false)
  {
    if p == [] {
      assert p + toks == toks && cur + "" == cur;
    } else {
      assert p[0] in p;
      assert (p + toks)[0] == p[0] && (p + toks)[1..] == p[1..] + toks;
      StatementsBehindTrivia(p[1..], toks, cur + p[0].text);
      TextBehind(cur, p[0].text, Text(p[1..]));
    }
  }

  /** The lists of statements with and without `p` in front differ at most in the first piece. */
  lemma SplitBehindTrivia(p: string, s: string)
    requires IsTriviaText(p) && Lex(s).Ok?
    ensures var pieces := Pieces(Lex(s).value);
      && Split(s) == Ok(Emit(Text(pieces[0]), HasCode(pieces[0])) + CodePieces(pieces[1..]))
      && Split(p + s) == Ok(Emit(p + Text(pieces[0]), HasCode(pieces[0])) + CodePieces(pieces[1..]))
  {
    var toks := Lex(s).value;
    LexSealed(p, s);
    LexText(p);
    StatementsBehindTrivia(Lex(p).value, toks, "");
    assert "" + p == p;
    StatementsArePieces(toks, p, false);
    StatementsArePieces(toks, "", false);
    assert "" + Text(Pieces(toks)[0]) == Text(Pieces(toks)[0]);
  }

  lemma TrimOfFirm(r: string) returns (x: string, b: string)
    requires r != "" && !IsBlank(r[0])
    ensures r == x + b && AllBlank(b) && Firm(x) && TrimSpace(r) == x
  {
    x := TrimRight(r);
    b := TrimRightParts(r);
    assert TrimLeft(r) == r;
    assert x == "" ==> r == b;
    assert x != "" && (x + b)[0] == x[0];
  }

  lemma TrimOfPiece(p: string, r: string)
    requires r != "" && !IsBlank(r[0])
    ensures TrimSpace(p + r) == TrimLeft(p) + TrimSpace(r)
  {
    var x, b := TrimOfFirm(r);
    TrimBefore(p, x, b);
    TextBehind(p, x, b);
  }

  /** A text that begins with a letter has no trivia in front. */
  lemma LetterIsBody(x: string)
    requires x != "" && IsLetter(x[0])
    ensures StatementBody(x) == x
  {
    assert Trivia(x) == 0;
    BodyIsSuffix(x);
    assert x[0..] == x;
  }
}
