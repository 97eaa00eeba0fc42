/** What SplitStatements (internal/clickhouse/client.go) makes of each construct of the language, with its bytes
    written out: whatever stands inside a quote, a heredoc or a comment separates nothing. */
module SqlConstructs {
  import opened SqlText
  import opened SqlBytes
  import opened SqlLexer
  import opened SqlGrammar
  import opened SqlSplit
  import opened SqlStability
  import opened SqlResplit

  lemma OrdinaryIsPlain(w: string)
    requires Ordinary(w)
    ensures AllPlain(w)
  {}

  lemma PlainSeparatesNothing(w: string)
    requires Ordinary(w)
    ensures AllPlain(w) && NoSemicolon(Singles(w))
  {
    OrdinaryIsPlain(w);
  }

  /** Ordinary text and one more token: one statement, when there is code in it. */
  lemma OneMore(w: string, t: Token)
    requires Ordinary(w) && t.text != "" && TokenAt(t, "") && t.kind != Semicolon
    requires IsCode(t) || HasCode(Singles(w))
    ensures Split(w + t.text) == Ok([TrimSpace(w + t.text)])
  {
    PlainSeparatesNothing(w);
    LexPlainToken(w, t);
    LexText(w + t.text);
    OnePiece(w + t.text, Singles(w), t);
  }

  lemma OnePiece(x: string, head: seq<Token>, t: Token)
    requires Lex(x) == Ok(head + [t]) && Text(head + [t]) == x
    requires NoSemicolon(head) && t.kind != Semicolon && (IsCode(t) || HasCode(head))
    ensures Split(x) == Ok([TrimSpace(x)])
  {
    HasCodeAppend(head, [t]);
    StatementsOfPiece(head + [t], "", false);
    assert "" + x == x;
  }

  /** Ordinary text in front of a construct that is never closed. */
  lemma NoMore(w: string, s: string, e: LexError)
    requires Ordinary(w) && s != "" && First(s) == Err(e)
    ensures Split(w + s) == Err(e)
  {
    OrdinaryIsPlain(w);
    PlainChain(w, "");
    ChainIsLex(Singles(w));
    LexSealed(w, s);
  }

  // ---------------------------------------------------------------- quotes

  /** The text with every quote mark `q` doubled. */
  function Doubled(v: string, q: char): string { ReplaceAll(v, q, [q, q]) }

  lemma {:induction false} DoubledBody(v: string, q: char)
    requires q != '\\' && '\\' !in v
    ensures QuoteBody(Doubled(v, q), q) && QuoteEnd(Doubled(v, q), q) == None
  {
    if v != "" {
      var d, more := Doubled(v, q), Doubled(v[1..], q);
      DoubledBody(v[1..], q);
      if v[0] == q {
        assert d == [q, q] + more && d[2..] == more;
      } else {
        assert d == [v[0]] + more && d[1..] == more && v[0] in v;
      }
    }
  }

  lemma QuotedIsToken(q: char, body: string)
    requires QuoteMark(q) && QuoteBody(body, q)
    ensures TokenAt(Token(Quoted, [q] + body + [q]), "")
  {
    var s := [q] + body + [q];
    assert s[1..|s| - 1] == body;
    assert IsQuotedText(s, q);
  }

  /** A quoted text, in any of the three quote marks, is part of the statement it stands in, whatever it holds. */
  lemma QuoteIsOne(w: string, q: char, v: string)
    requires Ordinary(w) && (q == '\'' || q == '"' || q == '`') && '\\' !in v
    ensures var x := w + ([q] + Doubled(v, q) + [q]);
      Split(x) == Ok([TrimLeft(w) + ([q] + Doubled(v, q) + [q])])
  {
    var t := Token(Quoted, [q] + Doubled(v, q) + [q]);
    DoubledBody(v, q);
    QuotedIsToken(q, Doubled(v, q));
    OneMore(w, t);
    QuoteIsFirm(q, Doubled(v, q));
    TrimBefore(w, t.text, "");
    assert w + t.text + "" == w + t.text;
  }

  lemma QuoteIsFirm(q: char, body: string)
    requires QuoteMark(q)
    ensures Firm([q] + body + [q])
  {
    var s := [q] + body + [q];
    assert s[0] == q && s[|s| - 1] == q;
  }

  /** Without its last quote mark it is an error. */
  lemma QuoteUnclosed(w: string, q: char, v: string)
    requires Ordinary(w) && (q == '\'' || q == '"' || q == '`') && '\\' !in v
    ensures Split(w + ([q] + Doubled(v, q))) == Err(UnterminatedQuote)
  {
    var s := [q] + Doubled(v, q);
    DoubledBody(v, q);
    FirstQuote(s);
    assert s[1..] == Doubled(v, q);
    NoMore(w, s, UnterminatedQuote);
  }

  /** A backslash inside a quote takes the byte behind it, whatever that is. */
  lemma EscapeIsOne(w: string, q: char, c: char)
    requires Ordinary(w) && (q == '\'' || q == '"' || q == '`')
    ensures Split(w + ([q] + ['\\', c] + [q])) == Ok([TrimLeft(w) + ([q] + ['\\', c] + [q])])
    ensures Split(w + ([q] + ['\\', q])) == Err(UnterminatedQuote)
  {
    var t, s := Token(Quoted, [q] + ['\\', c] + [q]), [q] + ['\\', q];
    assert ['\\', c][2..] == "" && QuoteBody(['\\', c], q);
    QuotedIsToken(q, ['\\', c]);
    OneMore(w, t);
    QuoteIsFirm(q, ['\\', c]);
    TrimBefore(w, t.text, "");
    assert w + t.text + "" == w + t.text;
    FirstQuote(s);
    assert s[1..] == ['\\', q] && ['\\', q][2..] == "";
    NoMore(w, s, UnterminatedQuote);
  }

  // ---------------------------------------------------------------- heredocs

  /** The delimiter `$name$`. */
  function Delimiter(name: string): string { "$" + name + "$" }

  ghost predicate IsName(name: string) { forall k :: 0 <= k < |name| ==> WordByte(name[k]) }

  lemma DelimiterIsTag(name: string)
    requires IsName(name)
    ensures IsTag(Delimiter(name))
  {
    var tag := Delimiter(name);
    assert forall k :: 0 < k < |tag| - 1 ==> tag[k] == name[k - 1];
  }

  /** A heredoc is part of the statement it stands in, whatever it holds up to the first repetition of its delimiter. */
  lemma HeredocIsOne(w: string, name: string, v: string)
    requires Ordinary(w) && IsName(name)
    requires var tag := Delimiter(name); forall k :: 0 <= k < |v| ==> !Has(v + tag, k, tag)
    ensures var t := Delimiter(name) + v + Delimiter(name); Split(w + t) == Ok([TrimLeft(w) + t])
  {
    var tag := Delimiter(name);
    var t := Token(Heredoc, tag + v + tag);
    DelimiterIsTag(name);
    HeredocParts(tag, v);
    OneMore(w, t);
    assert t.text[0] == '$' && t.text[|t.text| - 1] == tag[|tag| - 1] == '$';
    TrimBefore(w, t.text, "");
    assert w + t.text + "" == w + t.text;
  }

  lemma HeredocParts(tag: string, v: string)
    requires IsTag(tag) && forall k :: 0 <= k < |v| ==> !Has(v + tag, k, tag)
    ensures IsHeredocText(tag + v + tag, tag)
  {
    var s := tag + v + tag;
    assert s[|s| - |tag|..|s|] == tag && s[..|tag|] == tag;
    forall k | |tag| <= k < |s| - |tag|
      ensures !Has(s, k, tag)
    {
      assert s[k..k + |tag|] == (v + tag)[k - |tag|..k] && !Has(v + tag, k - |tag|, tag);
    }
  }

  /** A heredoc whose delimiter does not come again is an error. */
  lemma HeredocUnclosed(w: string, name: string, v: string)
    requires Ordinary(w) && IsName(name)
    requires forall k :: 0 <= k <= |v| - |Delimiter(name)| ==> !Has(v, k, Delimiter(name))
    ensures Split(w + (Delimiter(name) + v)) == Err(UnterminatedHeredoc)
  {
    var tag := Delimiter(name);
    var s := tag + v;
    DelimiterIsTag(name);
    assert tag <= s && s[|tag|..] == v && s[0] == '$';
    TagUnique(s, tag);
    HeredocEndSpec(v, tag);
    FirstHeredoc(s, tag);
    NoMore(w, s, UnterminatedHeredoc);
  }

  // ---------------------------------------------------------------- comments

  /** What opens a comment that ends with its line. */
  ghost predicate LineOpener(o: string) { o == "--" || o == "//" || o == "#!" || o == "# " || o == "#\t" }

  lemma LineIsToken(o: string, v: string, rest: string)
    requires LineOpener(o) && '\n' !in v && (rest == "" || rest == "\n")
    ensures TokenAt(Token(LineComment, o + v + rest), "")
  {
    var s := o + v + rest;
    assert s[0] == o[0] && s[1] == o[1] && s + "" == s;
    assert forall k :: 2 <= k < 2 + |v| ==> s[k] == v[k - 2] && v[k - 2] in v;
  }

  /** The text begins with a letter. */
  ghost predicate Begins(w: string) { w != "" && Letter(w[0]) }

  lemma LetterIsCode(w: string)
    requires Ordinary(w) && Begins(w)
    ensures HasCode(Singles(w)) && !IsBlank(w[0])
  {}

  /** A line comment takes in everything up to the end of its line, semicolons and quote marks alike. */
  lemma LineCommentIsOne(w: string, o: string, v: string)
    requires Ordinary(w) && Begins(w) && LineOpener(o) && '\n' !in v
    ensures Split(w + (o + v)) == Ok([TrimSpace(w + (o + v))])
  {
    assert o + v + "" == o + v;
    LineIsToken(o, v, "");
    LetterIsCode(w);
    OneMore(w, Token(LineComment, o + v));
  }

  /** A block comment, with others nested in it or not, takes in everything up to its own close. */
  lemma BlockCommentIsOne(w: string, b: Body)
    requires Ordinary(w) && Begins(w) && Clean(b)
    ensures Split(w + ("/*" + Closed(b))) == Ok([TrimSpace(w + ("/*" + Closed(b)))])
  {
    var t := Token(BlockComment, "/*" + Closed(b));
    assert t.text[2..] == Closed(b);
    assert IsBlockText(t.text, b);
    LetterIsCode(w);
    OneMore(w, t);
  }

  lemma {:induction false} NoSlashNoClose(v: string, d: nat)
    requires d > 0 && '/' !in v
    ensures BlockEnd(v, d) == None
  {
    if v != "" {
      assert v[0] in v && (|v| >= 2 ==> v[1] in v);
      NoSlashNoClose(v[1..], d);
    }
  }

  lemma BlockCommentUnclosed(w: string, v: string)
    requires Ordinary(w) && '/' !in v
    ensures Split(w + ("/*" + v)) == Err(UnterminatedComment)
  {
    var s := "/*" + v;
    assert s[2..] == v;
    NoSlashNoClose(v, 1);
    NoMore(w, s, UnterminatedComment);
  }

  // ---------------------------------------------------------------- separators and white space

  lemma OrdinaryLex(a: string)
    requires Ordinary(a) && Begins(a)
    ensures Lex(a) == Ok(Singles(a)) && AllSealed(Singles(a)) && Text(Singles(a)) == a
    ensures NoSemicolon(Singles(a)) && HasCode(Singles(a))
  {
    PlainSeparatesNothing(a);
    LetterIsCode(a);
    PlainChain(a, "");
    ChainIsLex(Singles(a));
  }

  /** Ordinary text that begins with a letter is one statement. */
  lemma OrdinaryIsOne(a: string)
    requires Ordinary(a) && Begins(a)
    ensures Split(a) == Ok([TrimSpace(a)])
  {
    OrdinaryLex(a);
    StatementsOfPiece(Singles(a), "", false);
    assert "" + a == a;
  }

  /** A semicolon at top level separates. */
  lemma SemicolonSeparates(a: string, b: string)
    requires Ordinary(a) && Ordinary(b) && Begins(a) && Begins(b)
    ensures Split(a + (";" + b)) == Ok([TrimSpace(a), TrimSpace(b)])
  {
    OrdinaryLex(a);
    OrdinaryIsOne(b);
    LexSealed(a, ";" + b);
    LexSemi(b);
    PlainSeparates(a + (";" + b), Singles(a), b, [TrimSpace(b)]);
    assert Emit(a, true) + [TrimSpace(b)] == [TrimSpace(a), TrimSpace(b)];
  }

  lemma PlainSeparates(s: string, toks: seq<Token>, b: string, more: seq<string>)
    requires NoSemicolon(toks) && Lex(s) == Then(toks, Then([SEMI], Lex(b))) && Split(b) == Ok(more)
    ensures Split(s) == Ok(Emit(Text(toks), HasCode(toks)) + more)
  {
    SplitBefore(s, toks, b);
    assert "" + Text(toks) == Text(toks);
  }

  lemma SpaceIsOrdinary(s: string)
    requires forall k :: 0 <= k < |s| ==> SpaceByte(s[k])
    ensures Ordinary(s)
  {}

  lemma {:induction false} SpacesAreTokens(s: string)
    requires forall k :: 0 <= k < |s| ==> SpaceByte(s[k])
    ensures !HasCode(Singles(s))
  {
    if s != "" {
      assert Singles(s)[1..] == Singles(s[1..]);
      SpacesAreTokens(s[1..]);
    }
  }

  lemma SpaceLex(s: string)
    requires forall k :: 0 <= k < |s| ==> SpaceByte(s[k])
    ensures Lex(s) == Ok(Singles(s)) && AllSealed(Singles(s)) && Text(Singles(s)) == s
    ensures NoSemicolon(Singles(s)) && !HasCode(Singles(s))
  {
    SpaceIsOrdinary(s);
    PlainSeparatesNothing(s);
    SpacesAreTokens(s);
    PlainChain(s, "");
    ChainIsLex(Singles(s));
  }

  /** White space alone is no statement. */
  lemma SpaceIsNothing(s: string)
    requires forall k :: 0 <= k < |s| ==> SpaceByte(s[k])
    ensures Split(s) == Ok([])
  {
    SpaceLex(s);
    StatementsOfPiece(Singles(s), "", false);
  }

  /** A separator with nothing in front of it adds no statement. */
  lemma EmptyPieceIsNothing(s: string, b: string)
    requires (forall k :: 0 <= k < |s| ==> SpaceByte(s[k])) && Split(b).Ok?
    ensures Split(s + (";" + b)) == Split(b)
  {
    SpaceLex(s);
    LexSealed(s, ";" + b);
    LexSemi(b);
    PlainSeparates(s + (";" + b), Singles(s), b, Split(b).value);
    assert [] + Split(b).value == Split(b).value;
  }
}
