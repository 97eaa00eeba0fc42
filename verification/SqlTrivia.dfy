/** Exactly when white space and comments in front of a text change its class. */
module SqlTrivia {
  import opened SqlText
  import opened SqlLexer
  import opened SqlGrammar
  import opened SqlSplit
  import opened SqlStability
  import opened SqlResplit
  import opened SqlClassify
  import opened SqlKinds

  /** The blanks that TrimSpace takes off the front. */
  function Lead(s: string): string { s[..|s| - |TrimLeft(s)|] }

  lemma FrontOf(a: string, b: string)
    ensures (a + b)[..|a + b| - |b|] == a
  {}

  lemma LeadIs(s: string)
    ensures s == Lead(s) + TrimLeft(s) && AllBlank(Lead(s))
  {
    var a := TrimLeftParts(s);
    FrontOf(a, TrimLeft(s));
  }

  lemma LeadOfPrefix(t: string, z: string)
    requires z != "" ==> !IsBlank(z[0])
    ensures Lead(t + z) == Lead(t)
  {
    if z == "" {
      assert t + z == t;
    } else {
      TrimLeftBefore(t, z);
      LeadIs(t);
      assert (t + z)[..|t| - |TrimLeft(t)|] == t[..|t| - |TrimLeft(t)|];
    }
  }

  /** The text is one statement, and a letter stands behind its leading trivia. */
  ghost predicate HasWord(s: string) {
    Split(s).Ok? && |Split(s).value| == 1 && BeginsWithLetter(StatementBody(Split(s).value[0]))
  }

  predicate BeginsWithLetter(body: string) { body != "" && IsLetter(body[0]) }

  /** A comment in front, and a vertical tab among the leading blanks: the tab, which trimming would have taken off,
      now stands behind the comment, and the trivia scanner stops at it. */
  ghost predicate Hidden(p: string, s: string) { TrimLeft(p) != "" && VT in Lead(s) }

  // ---------------------------------------------------------------- the two bodies

  lemma {:induction false} TriviaBytesInFront(a: string, y: string)
    requires forall k :: 0 <= k < |a| ==> IsTriviaByte(a[k])
    ensures Trivia(a + y) == |a| + Trivia(y)
  {
    if a == "" {
      assert a + y == y;
    } else {
      TriviaBytesInFront(a[1..], y);
      assert (a + y)[1..] == a[1..] + y;
    }
  }

  lemma BlanksWithoutTab(a: string)
    requires AllBlank(a) && VT !in a
    ensures forall k :: 0 <= k < |a| ==> IsTriviaByte(a[k])
  {
    assert forall k :: 0 <= k < |a| ==> a[k] in a;
  }

  lemma BodyBehindBlanks(a: string, y: string)
    requires AllBlank(a) && VT !in a
    ensures StatementBody(a + y) == StatementBody(y)
  {
    BlanksWithoutTab(a);
    TriviaBytesInFront(a, y);
    BodyIsSuffix(a + y);
    BodyIsSuffix(y);
    DropBehind(a, y, Trivia(y));
  }

  /** The part of the leading blanks before the first vertical tab. */
  lemma {:induction false} FirstTab(a: string) returns (b: string, c: string)
    requires VT in a
    ensures a == b + ([VT] + c) && VT !in b
  {
    if a[0] == VT {
      b, c := "", a[1..];
    } else {
      b, c := FirstTab(a[1..]);
      b := [a[0]] + b;
    }
  }

  lemma TabIsUnclassifiable(s: string)
    requires s != "" && s[0] == VT
    ensures Trivia(s) == 0 && ClassifyBody(s) == Rejected(Unclassifiable)
  {}

  lemma TabStopsBody(a: string, y: string)
    requires AllBlank(a) && VT in a
    ensures ClassifyBody(StatementBody(a + y)) == Rejected(Unclassifiable)
  {
    var b, c := FirstTab(a);
    var rest := [VT] + c + y;
    assert a + y == b + rest;
    assert forall k :: 0 <= k < |b| ==> b[k] == a[k];
    BodyBehindBlanks(b, rest);
    BodyIsSuffix(rest);
    TabIsUnclassifiable(rest);
    assert rest[0..] == rest;
  }

  // ---------------------------------------------------------------- trivia alone

  /** The verdict on a single statement. */
  function VerdictOn(t: string): Verdict { ClassifyBody(StatementBody(TrimSpace(t))) }

  lemma {:induction false} HashOrNothing(toks: seq<Token>)
    requires forall t :: t in toks ==> IsComment(t) || t.text == "#"
    ensures SkippedLen(toks) <= |Text(toks)|
    ensures SkippedLen(toks) < |Text(toks)| ==> Text(toks)[SkippedLen(toks)] == '#'
  {
    if toks != [] {
      assert toks[0] in toks;
      if IsSkipped(toks[0]) { HashOrNothing(toks[1..]); }
    }
  }

  lemma NoWord(body: string)
    requires body != "" ==> !IsLetter(body[0])
    ensures ClassifyBody(body) == Rejected(Unclassifiable)
  {}

  /** White space, comments and bare '#' alone have no class. */
  lemma CommentsHaveNoClass(toks: seq<Token>)
    requires Chain(toks, "") && NoSemicolon(toks) && forall t :: t in toks ==> IsComment(t) || t.text == "#"
    ensures VerdictOn(Text(toks)) == Rejected(Unclassifiable)
  {
    var x := TrimSpace(Text(toks));
    var r := TrimPiece(toks);
    LexIsChain(x);
    HashOrNothing(r);
    TriviaChain(r);
    BodyIsSuffix(x);
    NoWord(StatementBody(x));
  }

  /** Comments alone have no class, even when trimming leaves a bare '#' of one. */
  lemma TriviaHasNoClass(p: string)
    requires IsTriviaText(p)
    ensures VerdictOn(p) == Rejected(Unclassifiable)
  {
    var toks := Lex(p).value;
    LexIsChain(p);
    assert NoSemicolon(toks) by { assert forall k :: 0 <= k < |toks| ==> toks[k] in toks; }
    CommentsHaveNoClass(toks);
  }

  // ---------------------------------------------------------------- one statement

  lemma BlanksBehind(p: string, a: string)
    requires AllBlank(a)
    ensures TrimSpace(p + a) == TrimSpace(p) && TrimSpace(a) == ""
  {
    var b, c := TrimParts(p);
    TrimAround(b, TrimSpace(p), c + a);
    assert b + TrimSpace(p) + (c + a) == p + a;
    TrimAround(a, "", "");
    assert a + "" + "" == a;
  }

  lemma BlanksAround(p: string, b: string, m: string, c: string)
    requires AllBlank(p) && AllBlank(b) && AllBlank(c) && (m != "" ==> Firm(m))
    ensures TrimSpace(p + (b + m + c)) == m
  {
    TrimAround(p + b, m, c);
    assert (p + b) + m + c == p + (b + m + c);
  }

  lemma AllBlankTrimmed(p: string, t: string)
    requires TrimLeft(p) == ""
    ensures TrimSpace(p + t) == TrimSpace(t)
  {
    LeadIs(p);
    assert p == Lead(p);
    var b, c := TrimParts(t);
    BlanksAround(p, b, TrimSpace(t), c);
  }

  lemma TrimBlankFront(a: string, r: string)
    requires AllBlank(a) && r != "" && !IsBlank(r[0])
    ensures TrimSpace(a + r) == TrimSpace(r)
  {
    TrimOfPiece(a, r);
    TrimLeftBlank(a);
    assert "" + TrimSpace(r) == TrimSpace(r);
  }

  lemma TrimBack(q: string, a: string, r: string)
    requires q != "" && !IsBlank(q[0]) && r != "" && !IsBlank(r[0])
    ensures TrimSpace(q + (a + r)) == q + (a + TrimSpace(r))
  {
    TextBehind(q, a, r);
    TrimOfPiece(q + a, r);
    TrimLeftFirm(q + a);
    TextBehind(q, a, TrimSpace(r));
  }

  lemma TrimmedBehind(p: string, a: string, r: string)
    requires TrimLeft(p) != "" && AllBlank(a) && r != "" && !IsBlank(r[0])
    ensures TrimSpace(a + r) == TrimSpace(r)
    ensures TrimSpace(p + (a + r)) == TrimLeft(p) + (a + TrimSpace(r))
  {
    var q := TrimLeft(p);
    TrimBlankFront(a, r);
    TrimBack(q, a, r);
    LeadIs(p);
    TextBehind(Lead(p), q, a + r);
    TrimBlankFront(Lead(p), q + (a + r));
  }

  lemma TrimLeftFirm(s: string)
    requires s != "" && !IsBlank(s[0])
    ensures TrimLeft(s) == s
  {}

  lemma BlankStatement(p: string, a: string)
    requires IsTriviaText(p) && AllBlank(a)
    ensures VerdictOn(a) == VerdictOn(p + a) == Rejected(Unclassifiable)
  {
    BlanksBehind(p, a);
    TriviaHasNoClass(p);
    NoWord(StatementBody(""));
  }

  lemma FirmStatement(p: string, a: string, r: string)
    requires IsTriviaText(p) && TrimLeft(p) != "" && AllBlank(a) && r != "" && !IsBlank(r[0])
    ensures VerdictOn(p + (a + r)) == if VT in a then Rejected(Unclassifiable) else VerdictOn(a + r)
  {
    TrimmedBehind(p, a, r);
    BodyBehindTrivia(p, a + TrimSpace(r));
    if VT in a { TabStopsBody(a, TrimSpace(r)); } else { BodyBehindBlanks(a, TrimSpace(r)); }
  }

  function BodyOf(t: string): string { StatementBody(TrimSpace(t)) }

  lemma WordHasClass(body: string)
    ensures BeginsWithLetter(body) <==> ClassifyBody(body) != Rejected(Unclassifiable)
  {}

  /** The verdicts on a single statement `t`, with and without `p` in front. */
  lemma BodiesCompare(p: string, t: string)
    requires IsTriviaText(p)
    ensures VerdictOn(p + t) == VerdictOn(t) <==> !(Hidden(p, t) && BeginsWithLetter(BodyOf(t)))
  {
    var a, r := Lead(t), TrimLeft(t);
    LeadIs(t);
    WordHasClass(BodyOf(t));
    if r == "" {
      assert t == a;
      BlankStatement(p, a);
    } else if TrimLeft(p) == "" {
      AllBlankTrimmed(p, t);
    } else {
      FirmStatement(p, a, r);
    }
  }

  // ---------------------------------------------------------------- any text

  /** Without code in the first piece there is no vertical tab in front of it. */
  lemma NoCodeNoTab(toks: seq<Token>, a: string, y: string)
    requires Chain(toks, "") && NoSemicolon(toks) && !HasCode(toks) && Text(toks) == a + y && AllBlank(a)
    ensures VT !in a
  {
    AllComment(toks);
    LeadingBlanks(toks, a, y);
  }

  lemma {:induction false} AllComment(toks: seq<Token>)
    requires NoSemicolon(toks) && !HasCode(toks)
    ensures forall t :: t in toks ==> IsComment(t)
  {
    if toks != [] { AllComment(toks[1..]); }
  }

  lemma FirstPieceLead(s: string) returns (t: string)
    requires Lex(s).Ok?
    ensures t == Text(Pieces(Lex(s).value)[0]) && Lead(t) == Lead(s)
    ensures !HasCode(Pieces(Lex(s).value)[0]) ==> VT !in Lead(s)
  {
    var toks := Lex(s).value;
    var piece := Pieces(toks)[0];
    t := Text(piece);
    LexIsChain(s);
    LexSemicolons(s);
    PiecesAreChains(toks);
    assert piece in Pieces(toks);
    var z := FirstPieceText(toks);
    LeadOfPrefix(t, z);
    LeadIs(t);
    if !HasCode(piece) { NoCodeNoTab(piece, Lead(t), TrimLeft(t)); }
  }

  lemma ListsCompare(x: string, y: string, more: seq<string>)
    ensures more == [] ==>
      ClassifyList([x] + more) == ClassifyBody(StatementBody(x))
        && ClassifyList([y] + more) == ClassifyBody(StatementBody(y))
    ensures more != [] ==> ClassifyList([x] + more) == ClassifyList([y] + more) == Rejected(NotOneStatement)
  {}

  /** White space and complete comments in front of a text change its class exactly when there is a comment among
      them, the text begins with blanks that hold a vertical tab, and it is one statement that begins with a letter. */
  lemma TriviaInFrontIsExact(p: string, s: string)
    requires IsTriviaText(p)
    ensures Classify(p + s) == Classify(s) <==> !(Hidden(p, s) && HasWord(s))
  {
    LexSealed(p, s);
    if Lex(s).Ok? {
      SplitBehindTrivia(p, s);
      var t := FirstPieceLead(s);
      var pieces := Pieces(Lex(s).value);
      if HasCode(pieces[0]) {
        ListsCompare(TrimSpace(t), TrimSpace(p + t), CodePieces(pieces[1..]));
        BodiesCompare(p, t);
      }
    }
  }

  /** Without vertical tabs the class never changes. */
  lemma PrependTrivia(p: string, s: string)
    requires IsTriviaText(p) && VT !in s
    ensures Classify(p + s) == Classify(s)
  {
    TriviaInFrontIsExact(p, s);
    LeadIs(s);
  }

  // ---------------------------------------------------------------- a text whose class changes

  lemma EmptyCommentIsTrivia()
    ensures IsTriviaText("/**/")
  {
    var t := Token(BlockComment, "/**/");
    assert "/**/"[2..] == "*/" == Closed(End);
    assert IsBlockText(t.text, End);
    ChainOfOne(t, "");
    ChainIsLex([t]);
  }

  /** A plain text bearing code is one statement. */
  lemma PlainAlone(s: string)
    requires AllPlain(s) && HasCode(Singles(s))
    ensures Split(s) == Ok([TrimSpace(s)]) && Lex(s) == Ok(Singles(s))
  {
    PlainChain(s, "");
    ChainIsLex(Singles(s));
    StatementsOfPiece(Singles(s), "", false);
    assert "" + s == s;
  }

  lemma TabHasCode(w: string)
    ensures HasCode(Singles([VT] + w))
  {}

  lemma ClassifyOne(s: string, x: string)
    requires Split(s) == Ok([x])
    ensures Classify(s) == ClassifyBody(StatementBody(x))
  {}

  lemma TabAlone(w: string, s: string)
    requires Firm(w) && s == [VT] + w && AllPlain(s) && IsLetter(w[0])
    ensures Classify(s) == ClassifyBody(w)
  {
    TabHasCode(w);
    PlainAlone(s);
    TrimAround([VT], w, "");
    assert [VT] + w + "" == s;
    ClassifyOne(s, w);
    LetterIsBody(w);
  }

  lemma ShowIsQuery()
    ensures ClassifyBody("SHOW") == Classified(Query)
  {
    UpperStays("SHOW");
    assert "SHOW"[..4] == "SHOW" == QUERY_WORDS[1];
  }

  lemma TabLeads(w: string)
    ensures VT in Lead([VT] + w)
  {
    var s := [VT] + w;
    assert s[1..] == w && TrimLeft(s) == TrimLeft(w);
    assert Lead(s)[0] == s[0];
  }

  /** A vertical tab alone is trimmed off; behind a comment it hides the first word. */
  lemma TabHidesWord(p: string, w: string, kind: StatementKind)
    requires IsTriviaText(p) && TrimLeft(p) != "" && Firm(w) && AllPlain([VT] + w) && IsLetter(w[0])
    requires ClassifyBody(w) == Classified(kind)
    ensures Classify([VT] + w) == Classified(kind) != Classify(p + ([VT] + w))
  {
    TabAlone(w, [VT] + w);
    TabLeads(w);
    TriviaInFrontIsExact(p, [VT] + w);
  }

  lemma TabHidesWordIn(p: string, w: string, s: string)
    requires IsTriviaText(p) && TrimLeft(p) != "" && Firm(w) && s == [VT] + w && AllPlain(s) && IsLetter(w[0])
    requires ClassifyBody(w) == Classified(Query)
    ensures Classify(s) == Classified(Query) != Classify(p + s)
  {
    TabHidesWord(p, w, Query);
  }

  lemma ShowIsPlain()
    ensures Firm("SHOW") && AllPlain([VT] + "SHOW") && IsLetter("SHOW"[0]) && TrimLeft("/**/") == "/**/"
  {}

  /** The input on which prepending a comment changes the class. */
  lemma VerticalTabUnderTrivia() returns (p: string, w: string, s: string)
    ensures p == "/**/" && w == "SHOW" && s == [VT] + w
    ensures Classify(s) == Classified(Query) != Classify(p + s)
  {
    EmptyCommentIsTrivia();
    ShowIsQuery();
    ShowIsPlain();
    p, w := "/**/", "SHOW";
    s := [VT] + w;
    TabHidesWordIn(p, w, s);
  }
}
