/** What Execute sends for a text that was not split before (internal/clickhouse/client.go), such as the query of an
    alert rule. */
module SqlExecute {
  import opened SqlText
  import opened SqlLexer
  import opened SqlGrammar
  import opened SqlSplit
  import opened SqlStability
  import opened SqlResplit
  import opened SqlJoin
  import opened SqlClassify
  import opened SqlKinds
  import opened SqlTrivia
  import opened SqlRewrite

  // ---------------------------------------------------------------- the tokens behind the last separator

  ghost function LastPiece(toks: seq<Token>): seq<Token> {
    if NoSemicolon(toks) then toks else LastPiece(toks[1..])
  }

  /** Nothing, or tokens that end with a separator. */
  ghost predicate Ended(front: seq<Token>) { front == [] || front[|front| - 1].kind == Semicolon }

  lemma {:induction false} FrontOfLast(toks: seq<Token>) returns (front: seq<Token>)
    ensures toks == front + LastPiece(toks) && NoSemicolon(LastPiece(toks)) && Ended(front)
  {
    if NoSemicolon(toks) {
      front := [];
    } else {
      var front' := FrontOfLast(toks[1..]);
      front := [toks[0]] + front';
      if front' == [] { OnlyFirst(toks); }
    }
  }

  lemma OnlyFirst(toks: seq<Token>)
    requires !NoSemicolon(toks) && NoSemicolon(toks[1..])
    ensures toks[0].kind == Semicolon
  {
    assert forall k :: 0 < k < |toks| ==> toks[k] == toks[1..][k - 1];
  }

  lemma {:induction false} StatementsBehind(front: seq<Token>, more: seq<Token>, cur: string, code: bool)
    requires front != [] && Ended(front)
    ensures Statements(front + more, cur, code) == Statements(front, cur, code) + Statements(more, "", false)
  {
    var t, rest := front[0], front[1..];
    assert (front + more)[0] == t && (front + more)[1..] == rest + more;
    if rest == [] {
      assert rest + more == more && Statements([], "", false) == [];
    } else {
      assert rest[|rest| - 1] == front[|front| - 1];
      if t.kind == Semicolon {
        StatementsBehind(rest, more, "", false);
      } else {
        StatementsBehind(rest, more, cur + t.text, code || IsCode(t));
      }
    }
  }

  /** The statements of a text, by its last piece. */
  lemma StatementsByLast(front: seq<Token>, last: seq<Token>)
    requires Ended(front) && NoSemicolon(last)
    ensures Statements(front + last, "", false) == Statements(front, "", false) + Emit(Text(last), HasCode(last))
  {
    StatementsOfPiece(last, "", false);
    assert "" + Text(last) == Text(last);
    if front == [] {
      assert front + last == last;
    } else {
      StatementsBehind(front, last, "", false);
    }
  }

  // ---------------------------------------------------------------- blanks in front

  /** A blank at the head of a chain is a token of its own. */
  lemma HeadBlank(toks: seq<Token>, a: string, y: string)
    requires Chain(toks, "") && Text(toks) == a + y && a != "" && AllBlank(a)
    ensures toks != [] && toks[0].text == [a[0]] && toks[0].kind != Semicolon && Text(toks[1..]) == a[1..] + y
  {
    var t := toks[0];
    assert (a + y)[0] == a[0] && Text(toks)[0] == t.text[0];
    BlankFirst(t, Text(toks[1..]) + "");
    assert (a + y)[1..] == a[1..] + y && Text(toks)[1..] == Text(toks[1..]);
  }

  lemma {:induction false} CutHead(toks: seq<Token>, a: string, y: string) returns (d: seq<Token>, r: seq<Token>)
    requires Chain(toks, "") && Text(toks) == a + y && AllBlank(a)
    ensures toks == d + r && NoSemicolon(d) && Text(d) == a && Chain(r, "") && Text(r) == y
  {
    if a == "" {
      d, r := [], toks;
      assert a + y == y;
      return;
    }
    var t := toks[0];
    HeadBlank(toks, a, y);
    var d';
    d', r := CutHead(toks[1..], a[1..], y);
    d := [t] + d';
    PutHead(t, d', r, toks);
    assert [a[0]] + a[1..] == a;
  }

  lemma PutHead(t: Token, d: seq<Token>, r: seq<Token>, toks: seq<Token>)
    requires toks != [] && toks[0] == t && toks[1..] == d + r && t.kind != Semicolon && NoSemicolon(d)
    ensures toks == ([t] + d) + r && NoSemicolon([t] + d) && Text([t] + d) == t.text + Text(d)
  {
    assert ([t] + d)[1..] == d;
  }

  /** The blanks in front of a text that classifies do not matter to the splitter. */
  lemma TrimLeftSplits(s: string)
    requires Classify(s).Classified?
    ensures Split(TrimLeft(s)) == Split(s)
  {
    var toks := Lex(s).value;
    LexIsChain(s);
    LeadIs(s);
    var d, r := CutHead(toks, Lead(s), TrimLeft(s));
    ChainIsLex(r);
    HeadSplits(d, r);
  }

  lemma HeadSplits(d: seq<Token>, r: seq<Token>)
    requires NoSemicolon(d) && AllBlank(Text(d)) && Chain(r, "")
    requires ClassifyList(Statements(d + r, "", false)).Classified?
    ensures Statements(d + r, "", false) == Statements(r, "", false)
  {
    var a, first := Text(d), Pieces(r)[0];
    StatementsAfterCode(d, r, "", false);
    assert "" + a == a && "" + Text(first) == Text(first);
    StatementsArePieces(r, a, HasCode(d));
    StatementsArePieces(r, "", false);
    TrimLeftBlank(a);
    AllBlankTrimmed(a, Text(first));
    PiecesAreChains(r);
    assert first in Pieces(r);
    if HasCode(d) && !HasCode(first) { CodelessHasNoClass(first); }
  }

  lemma CodelessHasNoClass(toks: seq<Token>)
    requires Chain(toks, "") && NoSemicolon(toks) && !HasCode(toks)
    ensures VerdictOn(Text(toks)) == Rejected(Unclassifiable)
  {
    AllComment(toks);
    CommentsHaveNoClass(toks);
  }

  // ---------------------------------------------------------------- the end that is cut off

  /** What Execute takes off the end of a text: at most one semicolon, and the blanks behind it. */
  ghost predicate IsTail(z: string) { z == "" || (Inert(z[0]) && AllBlank(z[1..])) }

  /** How the end `z` was cut off the tokens `toks`: behind a token, or inside the line comment `cut`, of which an
      open line comment or a bare '#' is left. */
  ghost predicate CutOff(toks: seq<Token>, ct: seq<Token>, cut: Option<Token>, d: seq<Token>, z: string) {
    match cut
    case None => toks == ct + d && Text(d) == z
    case Some(t) =>
      && (EndsOpen(ct) || EndsHash(ct)) && t.kind == LineComment && NoSemicolon(d) && AllBlank(Text(d))
      && toks == ct[..|ct| - 1] + [t] + d
  }

  lemma {:induction false} CutTail(toks: seq<Token>, c: string, z: string)
    returns (ct: seq<Token>, cut: Option<Token>, d: seq<Token>)
    requires Chain(toks, "") && Text(toks) == c + z && IsTail(z)
    ensures Chain(ct, "") && Text(ct) == c && CutOff(toks, ct, cut, d, z)
    ensures cut.None? ==> Chain(d, "")
  {
    if c == "" {
      ct, cut, d := [], None, toks;
      assert c + z == z && [] + toks == toks;
    } else {
      var t, more := toks[0], toks[1..];
      assert Text(more) + "" == Text(more);
      if |t.text| <= |c| {
        TrimTailStep(t, Text(more), c, z);
        var ct';
        ct', cut, d := CutTail(more, c[|t.text|..], z);
        CutBehind(t, c[|t.text|..], z);
        ct := [t] + ct';
        ChainInFront(t, ct');
        PutInFront(t, more, ct', cut, d, z);
      } else {
        ct, d := CutInside(t, more, c, z);
        cut := Some(t);
        assert ct[..|ct| - 1] == [] && toks == [] + [t] + d;
      }
    }
  }

  lemma PutInFront(t: Token, more: seq<Token>, ct: seq<Token>, cut: Option<Token>, d: seq<Token>, z: string)
    requires CutOff(more, ct, cut, d, z)
    ensures CutOff([t] + more, [t] + ct, cut, d, z)
  {
    if cut.None? {
      Assoc([t], ct, d);
    } else {
      InitBehind([t], ct);
      Assoc([t], ct[..|ct| - 1] + [cut.value], d);
      Assoc([t], ct[..|ct| - 1], [cut.value]);
    }
  }

  lemma {:induction false} BlanksDoNotSeparate(toks: seq<Token>)
    requires Chain(toks, "") && AllBlank(Text(toks))
    ensures NoSemicolon(toks)
  {
    if toks != [] {
      var t, more := toks[0], toks[1..];
      assert Text(toks)[0] == t.text[0];
      BlankFirst(t, Text(more) + "");
      assert forall k :: 0 <= k < |Text(more)| ==> Text(more)[k] == Text(toks)[k + 1];
      BlanksDoNotSeparate(more);
    }
  }

  /** The cut is inside a token: only a line comment can end with a blank or a semicolon. */
  lemma CutInside(t: Token, more: seq<Token>, c: string, z: string) returns (ct: seq<Token>, d: seq<Token>)
    requires t.text != "" && TokenAt(t, Text(more)) && Chain(more, "") && t.text + Text(more) == c + z
    requires c != "" && |c| < |t.text| && IsTail(z)
    ensures Chain(ct, "") && Text(ct) == c && |ct| == 1 && (EndsOpen(ct) || EndsHash(ct))
    ensures t.kind == LineComment && d == more && NoSemicolon(d) && AllBlank(Text(d))
  {
    InsideEnds(t, Text(more), c, z);
    LastByte(t, Text(more));
    var u := CutComment(t, Text(more), c);
    ct, d := [u], more;
    ChainOfOne(u, "");
    BlanksDoNotSeparate(more);
  }

  lemma InsideEnds(t: Token, more: string, c: string, z: string)
    requires t.text + more == c + z && c != "" && |c| < |t.text| && IsTail(z)
    ensures c <= t.text && t.text[|c|] == z[0] && Inert(z[0]) && Inert(t.text[|t.text| - 1]) && AllBlank(more)
  {
    var s := c + z;
    assert forall k :: 0 <= k < |t.text| ==> t.text[k] == s[k];
    assert forall k :: 0 <= k < |more| ==> more[k] == s[|t.text| + k] == z[1..][|t.text| + k - |c| - 1];
    assert t.text[|t.text| - 1] == z[|t.text| - 1 - |c|];
    assert |t.text| - 1 > |c| ==> z[|t.text| - 1 - |c|] == z[1..][|t.text| - 2 - |c|];
  }

  // ---------------------------------------------------------------- the first word decides

  /** The two texts have the same first `n` bytes. */
  ghost predicate Same(x: string, y: string, n: nat) {
    n <= |x| && n <= |y| && forall k :: 0 <= k < n ==> x[k] == y[k]
  }

  lemma SameBehind(x: string, y: string, n: nat, k: nat)
    requires Same(x, y, n) && k <= n
    ensures Same(x[k..], y[k..], n - k)
  {}

  lemma {:induction false} BlockEndSame(x: string, y: string, d: nat, n: nat)
    requires d > 0 && BlockEnd(x, d) == Some(n) && Same(x, y, n)
    ensures BlockEnd(y, d) == Some(n)
    decreases |x|
  {
    assert x[0] == y[0] && x[1] == y[1];
    if Opens(x, '/', '*') {
      SameBehind(x, y, n, 2);
      BlockEndSame(x[2..], y[2..], d + 1, n - 2);
    } else if Opens(x, '*', '/') {
      SameBehind(x, y, n, 2);
      if d > 1 { BlockEndSame(x[2..], y[2..], d - 1, n - 2); }
    } else {
      SameBehind(x, y, n, 1);
      BlockEndSame(x[1..], y[1..], d, n - 1);
    }
  }

  lemma {:induction false} LineEndSame(x: string, y: string, n: nat)
    requires n == LineEnd(x) < |x| && Same(x, y, n)
    ensures LineEnd(y) == n
    decreases |x|
  {
    assert x[0] == y[0];
    if x[0] != '\n' {
      SameBehind(x, y, n, 1);
      LineEndSame(x[1..], y[1..], n - 1);
    }
  }

  lemma OpenerSame(x: string, y: string)
    requires Same(x, y, 2)
    ensures OpenerLen(x) == OpenerLen(y) && (Opens(x, '/', '*') <==> Opens(y, '/', '*'))
  {
    assert x[0] == y[0] && x[1] == y[1];
  }

  lemma LineSame(x: string, y: string, o: nat, n: nat)
    requires Same(x, y, n) && 2 <= n < |x| && !IsTriviaByte(x[0]) && o == OpenerLen(x) > 0 && n == o + LineEnd(x[o..])
    ensures Trivia(x) == n + Trivia(x[n..]) && Trivia(y) == n + Trivia(y[n..])
  {
    OpenerSame(x, y);
    SameBehind(x, y, n, o);
    LineEndSame(x[o..], y[o..], n - o);
    LineIsFirst(x, o, n, x[o..]);
    LineIsFirst(y, o, n, y[o..]);
  }

  lemma LineIsFirst(x: string, o: nat, n: nat, line: string)
    requires x != "" && !IsTriviaByte(x[0]) && o == OpenerLen(x) > 0 && line == x[o..] && n == o + LineEnd(line)
    ensures Trivia(x) == n + Trivia(x[n..])
  {
    TriviaCommentText(x, o, n - o, line, x[n..]);
  }

  lemma BlockSame(x: string, y: string, n: nat)
    requires Same(x, y, n) && n < |x| && !IsTriviaByte(x[0]) && OpenerLen(x) == 0 && Opens(x, '/', '*')
      && n == BlockLen(x)
    ensures Trivia(x) == n + Trivia(x[n..]) && Trivia(y) == n + Trivia(y[n..])
  {
    OpenerSame(x, y);
    SameBehind(x, y, n, 2);
    BlockEndSame(x[2..], y[2..], 1, n - 2);
    TriviaBlock(x, n);
    TriviaBlock(y, n);
  }

  /** The first step of the trivia scanner over `x` is its first step over `y`. */
  lemma FirstTrivia(x: string, y: string, n: nat) returns (k: nat)
    requires x != "" && n == Trivia(x) && 0 < n < |x| && Same(x, y, n)
    ensures 0 < k <= n && n == k + Trivia(x[k..]) && Trivia(y) == k + Trivia(y[k..])
  {
    if IsTriviaByte(x[0]) { return 1; }
    var o := OpenerLen(x);
    if o > 0 {
      k := o + LineEnd(x[o..]);
      TriviaComment(x, o, k - o);
      LineSame(x, y, o, k);
    } else {
      k := BlockLen(x);
      TriviaBlock(x, k);
      BlockSame(x, y, k);
    }
  }

  lemma {:induction false} TriviaStays(x: string, y: string, n: nat)
    requires n == Trivia(x) < |x| && Same(x, y, n + 1) && IsLetter(x[n])
    ensures Trivia(y) == n
    decreases |x|
  {
    assert x[n] == y[n];
    if n > 0 {
      var k := FirstTrivia(x, y, n);
      SameBehind(x, y, n + 1, k);
      TriviaStays(x[k..], y[k..], n - k);
    }
  }

  lemma QueryHasWord(body: string)
    requires ClassifyBody(body) == Classified(Query)
    ensures LetterLen(body) > 0 && IsLetter(body[0])
  {}

  lemma BodyStays(b: string, c: string, k: nat)
    requires ClassifyBody(b) == Classified(Query) && k == LetterLen(b) && Same(b, c, k) && (k < |c| ==> !IsLetter(c[k]))
    ensures ClassifyBody(c) == Classified(Query)
  {
    LetterLenSpec(b);
    LetterLenIs(c, k);
    assert b[..k] == c[..k];
  }

  /** A query is known by the text up to the end of its first word. */
  lemma WordStays(x: string, y: string, n: nat, k: nat)
    requires ClassifyBody(StatementBody(x)) == Classified(Query)
    requires n == Trivia(x) && k == LetterLen(x[n..]) && Same(x, y, n + k) && (n + k < |y| ==> !IsLetter(y[n + k]))
    ensures ClassifyBody(StatementBody(y)) == Classified(Query)
  {
    BodyIsSuffix(x);
    QueryHasWord(x[n..]);
    TriviaStays(x, y, n);
    BodyIsSuffix(y);
    SameBehind(x, y, n + k, n);
    BodyStays(x[n..], y[n..], k);
  }

  /** The trimmed text `x` of `g + w` lies in `g`, but for a semicolon. */
  lemma TrimmedTail(g: string, w: string) returns (x: string)
    requires g != "" && !IsBlank(g[0]) && IsTail(w)
    ensures x == TrimSpace(g + w) && Same(x, g, if |x| <= |g| then |x| else |g|)
    ensures |x| < |g| ==> IsBlank(g[|x|])
    ensures |x| > |g| ==> |x| == |g| + 1 && x[|g|] == ';'
  {
    var s := g + w;
    TrimLeftFirm(s);
    x := TrimRight(s);
    var b := TrimRightParts(s);
    assert s == x + b;
    assert forall k :: 0 <= k < |x| ==> x[k] == s[k];
    if |x| < |g| { assert g[|x|] == s[|x|] == b[0]; }
    if |x| > |g| { TailSemicolon(g, w, x, b); }
  }

  lemma TailSemicolon(g: string, w: string, x: string, b: string)
    requires g + w == x + b && |x| > |g| && IsTail(w) && !IsBlank(x[|x| - 1])
    ensures |x| == |g| + 1 && x[|g|] == ';'
  {
    var s, n := g + w, |x| - 1 - |g|;
    assert x[|g|] == s[|g|] == w[0] && x[|x| - 1] == s[|x| - 1] == w[n];
    if n > 0 { BlankAt(w, n); }
  }

  lemma BlankAt(w: string, n: nat)
    requires IsTail(w) && 0 < n < |w|
    ensures IsBlank(w[n])
  {
    assert w[n] == w[1..][n - 1];
  }

  /** The first word of the trimmed text lies in `g`. */
  lemma WordEnds(x: string, g: string, n: nat, k: nat)
    requires n == Trivia(x) && k == LetterLen(x[n..]) && ClassifyBody(StatementBody(x)) == Classified(Query)
    requires |x| > |g| ==> |x| == |g| + 1 && x[|g|] == ';'
    ensures n + k <= |x| && n + k <= |g| && (n + k < |x| ==> !IsLetter(x[n + k]))
  {
    BodyIsSuffix(x);
    QueryHasWord(x[n..]);
    LettersIn(x, n, k);
  }

  lemma LettersIn(x: string, n: nat, k: nat)
    requires n + k <= |x| && k == LetterLen(x[n..])
    ensures forall j :: n <= j < n + k ==> IsLetter(x[j])
    ensures n + k < |x| ==> !IsLetter(x[n + k])
  {
    LetterLenSpec(x[n..]);
    assert forall j :: n <= j < |x| ==> x[j] == x[n..][j - n];
  }

  lemma WordInside(g: string, x: string, f: string)
    requires IsClause(f) && ClassifyBody(StatementBody(x)) == Classified(Query)
    requires Same(x, g, if |x| <= |g| then |x| else |g|)
    requires |x| < |g| ==> IsBlank(g[|x|])
    requires |x| > |g| ==> |x| == |g| + 1 && x[|g|] == ';'
    ensures ClassifyBody(StatementBody(g + f)) == Classified(Query)
  {
    var n := Trivia(x);
    var k := LetterLen(x[n..]);
    WordEnds(x, g, n, k);
    NextByte(x, g, f, n + k);
    WordStays(x, g + f, n, k);
  }

  lemma NextByte(x: string, g: string, f: string, n: nat)
    requires n <= |x| && n <= |g| && IsClause(f) && Same(x, g, if |x| <= |g| then |x| else |g|)
    requires (n < |x| ==> !IsLetter(x[n])) && (|x| < |g| ==> IsBlank(g[|x|]))
    ensures Same(x, g + f, n) && !IsLetter((g + f)[n])
  {
    var y := g + f;
    assert y[n] == if n < |g| then g[n] else f[0];
  }

  lemma TailIsNoQuery(w: string)
    requires IsTail(w)
    ensures VerdictOn(w) == Rejected(Unclassifiable)
  {
    if w == "" || IsBlank(w[0]) {
      TrimAround(w, "", "");
      assert w + "" + "" == w;
    } else {
      TrimAround("", ";", w[1..]);
      assert "" + ";" + w[1..] == w;
    }
  }

  /** A query whose last piece is `p` stays a query when the clause takes the place of its tail. */
  lemma QueryGoesOn(p: string, w: string, f: string)
    requires IsTail(w) && IsClause(f) && VerdictOn(p + w) == Classified(Query)
    ensures VerdictOn(p + f) == Classified(Query)
  {
    var a, g := Lead(p), TrimLeft(p);
    LeadIs(p);
    if g == "" {
      AllBlankTrimmed(p, w);
      TailIsNoQuery(w);
    } else {
      TextBehind(a, g, w);
      TextBehind(a, g, f);
      TrimBlankFront(a, g + w);
      TrimBlankFront(a, g + f);
      var x := TrimmedTail(g, w);
      WordInside(g, x, f);
      ClauseEndsFirm(g, f);
      TrimFixed(g + f);
    }
  }

  // ---------------------------------------------------------------- the statements of the text before the cut

  /** The last piece bears code, not counting what a cut has left of a line comment. */
  ghost predicate BearsBefore(last: seq<Token>, cut: Option<Token>) {
    if cut.None? then HasCode(last) else last != [] && HasCode(last[..|last| - 1])
  }

  lemma SemicolonFirst(d: seq<Token>, z: string)
    requires Chain(d, "") && Text(d) == z && z != "" && z[0] == ';'
    ensures d != [] && d[0].kind == Semicolon && d[0].text == ";" && Text(d[1..]) == z[1..] && Chain(d[1..], "")
  {
    assert d[0].text[0] == z[0];
    FirstByte(d[0], Text(d[1..]) + "");
    assert d[0].text == ";";
  }

  lemma BlankPieceHasNoClass(p: string, z: string)
    requires AllBlank(z)
    ensures VerdictOn(p + z) == VerdictOn(p) && VerdictOn(z) == Rejected(Unclassifiable)
  {
    BlanksBehind(p, z);
    NoWord(StatementBody(""));
  }

  /** A list that classifies has a single statement. */
  lemma OnlyOne(a: seq<string>, t: string)
    requires ClassifyList(a + [TrimSpace(t)]).Classified?
    ensures a == [] && ClassifyList(a + [TrimSpace(t)]) == VerdictOn(t)
  {
    assert |a + [TrimSpace(t)]| == |a| + 1;
  }

  /** The cut took off a separator and blanks. */
  lemma SeparatedList(front: seq<Token>, last: seq<Token>, d: seq<Token>, z: string)
    requires Ended(front) && NoSemicolon(last) && Chain(d, "") && Text(d) == z && IsTail(z) && z != "" && z[0] == ';'
    requires ClassifyList(Statements(front + last + d, "", false)).Classified?
    ensures Statements(front + last + d, "", false)
         == Statements(front, "", false) + Emit(Text(last), HasCode(last))
  {
    SemicolonFirst(d, z);
    var semi, more := [d[0]], d[1..];
    var a := front + last + semi;
    BlanksDoNotSeparate(more);
    assert front + last + d == a + more;
    StatementsByLast(a, more);
    StatementsByLast(front, last);
    SeparatorEnds(front + last, d[0]);
    if HasCode(more) {
      OnlyOne(Statements(a, "", false), Text(more));
      BlankPieceHasNoClass("", Text(more));
    }
    assert Statements(a, "", false) + [] == Statements(a, "", false);
  }

  lemma SeparatorEnds(toks: seq<Token>, semi: Token)
    requires semi.kind == Semicolon
    ensures Statements(toks + [semi], "", false) == Statements(toks, "", false)
  {
    var front := FrontOfLast(toks);
    var last := LastPiece(toks);
    assert toks + [semi] == front + (last + [semi]);
    StatementsByLast(front, last);
    PieceAndSeparator(last, semi);
    if front == [] {
      assert [] + (last + [semi]) == last + [semi] && Statements([], "", false) == [];
      assert [] + Emit(Text(last), HasCode(last)) == Emit(Text(last), HasCode(last));
    } else {
      StatementsBehind(front, last + [semi], "", false);
    }
  }

  lemma PieceAndSeparator(last: seq<Token>, semi: Token)
    requires NoSemicolon(last) && semi.kind == Semicolon
    ensures Statements(last + [semi], "", false) == Emit(Text(last), HasCode(last))
  {
    StatementsAfterCode(last, [semi], "", false);
    assert "" + Text(last) == Text(last) && [semi][1..] == [];
    assert Emit(Text(last), HasCode(last)) + [] == Emit(Text(last), HasCode(last));
  }

  /** The cut took off blanks alone. */
  lemma BlankList(front: seq<Token>, last: seq<Token>, d: seq<Token>)
    requires Ended(front) && NoSemicolon(last) && Chain(last, "") && Chain(d, "") && AllBlank(Text(d))
    requires ClassifyList(Statements(front + last + d, "", false)).Classified?
    ensures Statements(front + last + d, "", false)
         == Statements(front, "", false) + Emit(Text(last) + Text(d), HasCode(last))
  {
    BlanksDoNotSeparate(d);
    Assoc(front, last, d);
    StatementsByLast(front, last + d);
    TextAppend(last, d);
    HasCodeAppend(last, d);
    if HasCode(d) && !HasCode(last) { CommentIsNotOne(Statements(front, "", false), last, d); }
  }

  lemma CommentPieceCode(init: seq<Token>, t: Token, d: seq<Token>)
    requires t.kind == LineComment
    ensures HasCode(init + [t] + d) <==> HasCode(init) || HasCode(d)
    ensures HasCode(init + [t]) <==> HasCode(init)
  {
    HasCodeAppend(init, [t]);
    HasCodeAppend(init + [t], d);
  }

  /** The cut is inside the line comment `t`. */
  lemma CommentList(front: seq<Token>, init: seq<Token>, t: Token, d: seq<Token>)
    requires Ended(front) && NoSemicolon(init) && t.kind == LineComment && Chain(init + [t], "")
    requires NoSemicolon(d) && AllBlank(Text(d))
    requires ClassifyList(Statements(front + (init + [t] + d), "", false)).Classified?
    ensures Statements(front + (init + [t] + d), "", false)
         == Statements(front, "", false) + Emit(Text(init + [t] + d), HasCode(init))
  {
    var piece, a := init + [t] + d, Statements(front, "", false);
    StatementsByLast(front, piece);
    CommentPieceCode(init, t, d);
    if HasCode(d) && !HasCode(init) { CommentIsNotOne(a, init + [t], d); }
  }

  lemma CommentIsNotOne(a: seq<string>, p: seq<Token>, d: seq<Token>)
    requires Chain(p, "") && NoSemicolon(p) && !HasCode(p) && AllBlank(Text(d))
    ensures !ClassifyList(a + [TrimSpace(Text(p + d))]).Classified?
  {
    TextAppend(p, d);
    BlankPieceHasNoClass(Text(p), Text(d));
    CodelessHasNoClass(p);
    if ClassifyList(a + [TrimSpace(Text(p + d))]).Classified? { OnlyOne(a, Text(p + d)); }
  }

  lemma ListInComment(toks: seq<Token>, front: seq<Token>, last: seq<Token>, t: Token, d: seq<Token>, z: string)
    requires Chain(toks, "") && Text(toks) == Text(front + last) + z && last != []
    requires toks == (front + last)[..|front + last| - 1] + [t] + d && t.kind == LineComment
    requires Ended(front) && NoSemicolon(last) && NoSemicolon(d) && AllBlank(Text(d))
    requires ClassifyList(Statements(toks, "", false)).Classified?
    ensures Statements(toks, "", false)
         == Statements(front, "", false) + Emit(Text(last) + z, HasCode(last[..|last| - 1]))
  {
    var init := last[..|last| - 1];
    InFront(front, last, t, d);
    ChainPart(front, init + [t], d);
    CommentList(front, init, t, d);
    SameBack(front, last, init + [t] + d, z);
  }

  /** The statements of the text before the cut, by the last piece behind the cut. */
  lemma ListBefore(toks: seq<Token>, front: seq<Token>, last: seq<Token>, cut: Option<Token>, d: seq<Token>, z: string)
    returns (w: string)
    requires Chain(toks, "") && CutOff(toks, front + last, cut, d, z) && Text(toks) == Text(front + last) + z
      && IsTail(z)
    requires Ended(front) && NoSemicolon(last) && Chain(last, "") && (cut.None? ==> Chain(d, ""))
    requires ClassifyList(Statements(toks, "", false)).Classified?
    ensures IsTail(w) && (cut.None? || AllBlank(z) ==> AllBlank(w))
    ensures Statements(toks, "", false)
         == Statements(front, "", false) + Emit(Text(last) + w, BearsBefore(last, cut))
    ensures cut.Some? ==> last != [] && (EndsOpen(last) || EndsHash(last))
  {
    if cut.Some? {
      w := z;
      LastIsLast(front, last);
      ListInComment(toks, front, last, cut.value, d, z);
    } else if z != "" && z[0] == ';' {
      w := "";
      SeparatedList(front, last, d, z);
      assert Text(last) + "" == Text(last);
    } else {
      w := z;
      assert AllBlank(z);
      BlankList(front, last, d);
    }
  }

  lemma LastIsLast(front: seq<Token>, last: seq<Token>)
    requires Ended(front)
    ensures EndsOpen(front + last) <==> EndsOpen(last)
    ensures EndsHash(front + last) <==> EndsHash(last)
  {
    if last == [] {
      assert front + last == front;
    } else {
      InitBehind(front, last);
    }
  }

  lemma InFront(front: seq<Token>, last: seq<Token>, t: Token, d: seq<Token>)
    requires last != []
    ensures (front + last)[..|front + last| - 1] + [t] + d == front + (last[..|last| - 1] + [t] + d)
  {
    InitBehind(front, last);
    Assoc(front, last[..|last| - 1], [t]);
    Assoc(front, last[..|last| - 1] + [t], d);
  }

  lemma ChainPart(a: seq<Token>, b: seq<Token>, c: seq<Token>)
    requires Chain(a + (b + c), "")
    ensures Chain(b, "")
  {
    ChainAppend(a, b + c, "");
    ChainAppend(b, c, "");
    assert Text(c) + "" == "" + Text(c) && "" + Text(c) == Text(c);
    ChainCut(b, "", Text(c));
  }

  lemma SameBack(front: seq<Token>, last: seq<Token>, back: seq<Token>, z: string)
    requires Text(front + back) == Text(front + last) + z
    ensures Text(back) == Text(last) + z
  {
    TextAppend(front, back);
    TextAppend(front, last);
    TextBehind(Text(front), Text(last), z);
    assert (Text(front) + Text(back))[|Text(front)|..] == Text(back);
  }

  // ---------------------------------------------------------------- the statements of the text that is sent

  /** The tokens with the clause behind them. */
  function WithClause(toks: seq<Token>, f: string): seq<Token> {
    if EndsOpen(toks) || EndsHash(toks) then Grown(toks, f) else toks + Singles(f)
  }

  lemma ClauseIsLine(f: string)
    requires IsClause(f)
    ensures LineEnd(f) == |f| && f[..|f|] == f && f[|f|..] == ""
  {
    assert forall k :: 0 <= k < |f| ==> f[k] in f;
  }

  lemma HashClause(toks: seq<Token>, f: string)
    requires Chain(toks, "") && EndsHash(toks) && IsClause(f)
    ensures Chain(Grown(toks, f), "") && Text(Grown(toks, f)) == Text(toks) + f
  {
    var init, t := LastChain(toks);
    assert t == toks[|toks| - 1] && init == toks[..|toks| - 1];
    var u := SwallowClause(init, t, "#", f);
    TextBehind(Text(init), "#", f);
  }

  lemma ClauseChain(toks: seq<Token>, f: string)
    requires Chain(toks, "") && IsClause(f)
    ensures Chain(WithClause(toks, f), "") && Text(WithClause(toks, f)) == Text(toks) + f
  {
    if EndsOpen(toks) {
      ClauseIsLine(f);
      ChainGrow(toks, f);
    } else if EndsHash(toks) {
      HashClause(toks, f);
    } else {
      ClauseIsCode(toks, f);
    }
  }

  lemma ClauseBehindFront(front: seq<Token>, last: seq<Token>, f: string)
    requires Ended(front)
    ensures WithClause(front + last, f) == front + WithClause(last, f)
  {
    LastIsLast(front, last);
    if EndsOpen(last) || EndsHash(last) {
      InitBehind(front, last);
      Assoc(front, last[..|last| - 1], [Token(LineComment, last[|last| - 1].text + f)]);
    } else {
      Assoc(front, last, Singles(f));
    }
  }

  lemma ClauseKeepsPiece(last: seq<Token>, f: string)
    requires NoSemicolon(last) && IsClause(f)
    ensures NoSemicolon(WithClause(last, f))
  {
    if !EndsOpen(last) && !EndsHash(last) { ClauseSeparatesNothing(last, f); }
  }

  lemma SplitByLast(front: seq<Token>, last: seq<Token>)
    requires Chain(front + last, "") && Ended(front) && NoSemicolon(last)
    ensures Split(Text(front + last)) == Ok(Statements(front, "", false) + Emit(Text(last), HasCode(last)))
  {
    ChainIsLex(front + last);
    StatementsByLast(front, last);
  }

  lemma ListWithClause(front: seq<Token>, last: seq<Token>, f: string)
    requires Ended(front) && NoSemicolon(last) && Chain(front + last, "") && Chain(last, "") && IsClause(f)
    ensures Split(Text(front + last) + f)
         == Ok(Statements(front, "", false) + Emit(Text(last) + f, HasCode(WithClause(last, f))))
  {
    ClauseChain(front + last, f);
    ClauseChain(last, f);
    ClauseBehindFront(front, last, f);
    ClauseKeepsPiece(last, f);
    SplitByLast(front, WithClause(last, f));
  }

  lemma LastCode(last: seq<Token>)
    requires last != []
    ensures HasCode(last) <==> HasCode(last[..|last| - 1]) || IsCode(last[|last| - 1])
  {
    InitAndLast(last);
    HasCodeAppend(last[..|last| - 1], [last[|last| - 1]]);
  }

  lemma GrownCode(last: seq<Token>, f: string)
    requires last != []
    ensures HasCode(Grown(last, f)) <==> HasCode(last[..|last| - 1])
  {
    HasCodeAppend(last[..|last| - 1], [Token(LineComment, last[|last| - 1].text + f)]);
  }

  /** The clause bears code unless a comment takes it in. */
  lemma ClauseCode(last: seq<Token>, f: string)
    requires IsClause(f)
    ensures HasCode(WithClause(last, f))
       <==> if EndsOpen(last) || EndsHash(last) then HasCode(last[..|last| - 1]) else true
    ensures EndsHash(last) ==> HasCode(last)
    ensures EndsOpen(last) ==> HasCode(last[..|last| - 1]) == HasCode(last)
  {
    if EndsOpen(last) || EndsHash(last) {
      LastCode(last);
      GrownCode(last, f);
    } else {
      HasCodeAppend(last, Singles(f));
      ClauseBearsCode(f);
    }
  }

  lemma {:induction false} LastIsCode(toks: seq<Token>)
    requires toks != [] && IsCode(toks[|toks| - 1])
    ensures HasCode(toks)
  {
    if |toks| > 1 { LastIsCode(toks[1..]); }
  }

  lemma ClauseBearsCode(f: string)
    requires IsClause(f)
    ensures HasCode(Singles(f))
  {
    LastIsCode(Singles(f));
  }

  // ---------------------------------------------------------------- one statement before, one statement after

  lemma ListsAgree(a: seq<string>, t: string, u: string, before: bool, after: bool)
    requires ClassifyList(a + Emit(t, before)).Classified?
    requires before && a == [] ==> after && VerdictOn(u) == VerdictOn(t)
    ensures ClassifyList(a + Emit(u, after)) == ClassifyList(a + Emit(t, before)) <==> before || !after
  {
    if before { OnlyOne(a, t); }
    if after && !before { assert a + [] == a && |a + [TrimSpace(u)]| == |a| + 1; }
  }

  /** The last piece is white space and comments, but for a bare '#' at its end. */
  ghost predicate BareHash(last: seq<Token>) { EndsHash(last) && !HasCode(last[..|last| - 1]) }

  lemma BareHashHasNoClass(last: seq<Token>, w: string)
    requires Chain(last, "") && NoSemicolon(last) && BareHash(last) && AllBlank(w)
    ensures VerdictOn(Text(last) + w) == Rejected(Unclassifiable)
  {
    AllComment(last[..|last| - 1]);
    InitAndLast(last);
    CommentsHaveNoClass(last);
    BlankPieceHasNoClass(Text(last), w);
  }

  /** A single statement does not consist of comments and a '#' that the cut has not made. */
  lemma BareHashIsCut(a: seq<string>, last: seq<Token>, cut: Option<Token>, w: string)
    requires Chain(last, "") && NoSemicolon(last) && (cut.None? ==> AllBlank(w))
    requires ClassifyList(a + Emit(Text(last) + w, BearsBefore(last, cut))).Classified?
    requires cut.Some? ==> last != [] && (EndsOpen(last) || EndsHash(last))
    ensures BareHash(last) ==> cut.Some?
  {
    if BareHash(last) && cut.None? {
      LastIsCode(last);
      OnlyOne(a, Text(last) + w);
      BareHashHasNoClass(last, w);
    }
  }

  /** A text that classifies, cut at `c`: its list and that of `c`, by their last pieces. */
  lemma CutSplit(s: string, c: string, z: string)
    returns (front: seq<Token>, last: seq<Token>, cut: Option<Token>, w: string)
    requires Classify(s).Classified? && TrimLeft(s) == c + z && IsTail(z)
    ensures Lex(c) == Ok(front + last) && last == LastPiece(front + last) && Text(front + last) == c
    ensures Chain(front + last, "") && Chain(last, "") && Ended(front) && NoSemicolon(last)
    ensures cut.Some? ==> last != [] && (EndsOpen(last) || EndsHash(last))
    ensures IsTail(w) && (cut.None? || AllBlank(z) ==> AllBlank(w))
    ensures ClassifyList(Statements(front, "", false) + Emit(Text(last) + w, BearsBefore(last, cut))) == Classify(s)
  {
    TrimLeftSplits(s);
    LexIsChain(TrimLeft(s));
    var toks := Lex(TrimLeft(s)).value;
    var ct, d;
    ct, cut, d := CutTail(toks, c, z);
    ChainIsLex(ct);
    front := FrontOfLast(ct);
    last := LastPiece(ct);
    ChainAppend(front, last, "");
    w := ListBefore(toks, front, last, cut, d, z);
  }

  // ---------------------------------------------------------------- main results

  lemma TailOf(s: string) returns (b: string, z: string)
    ensures AllBlank(b) && IsTail(b) && TrimLeft(s) == TrimSpace(s) + b
    ensures IsTail(z) && TrimLeft(s) == DropSemicolon(TrimSpace(s)) + z
  {
    var t := TrimSpace(s);
    b := TrimRightParts(TrimLeft(s));
    z := t[|DropSemicolon(t)|..] + b;
    assert t == DropSemicolon(t) + t[|DropSemicolon(t)|..];
    assert |DropSemicolon(t)| < |t| ==> z[0] == ';' && z[1..] == b;
    assert |DropSemicolon(t)| == |t| ==> z == b;
  }

  lemma QueryListsAgree(a: seq<string>, last: seq<Token>, cut: Option<Token>, w: string, f: string)
    requires Chain(last, "") && NoSemicolon(last) && IsClause(f) && IsTail(w) && (cut.None? ==> AllBlank(w))
    requires cut.Some? ==> last != [] && (EndsOpen(last) || EndsHash(last))
    requires ClassifyList(a + Emit(Text(last) + w, BearsBefore(last, cut))) == Classified(Query)
    ensures ClassifyList(a + Emit(Text(last) + f, HasCode(WithClause(last, f)))) == Classified(Query)
       <==> HasCode(last) || EndsOpen(last)
  {
    var before, after := BearsBefore(last, cut), HasCode(WithClause(last, f));
    ClauseCode(last, f);
    BareHashIsCut(a, last, cut, w);
    if before && a == [] {
      OnlyOne(a, Text(last) + w);
      QueryGoesOn(Text(last), w, f);
    }
    ListsAgree(a, Text(last) + w, Text(last) + f, before, after);
  }

  /** For every text that classifies as a query, Execute sends one query exactly when the text behind its last
      separator, a final one not counted, bears code or ends inside a line comment. */
  lemma RawQueryIsExact(s: string)
    requires Classify(s) == Classified(Query)
    ensures var c := DropSemicolon(TrimSpace(s));
      && Lex(c).Ok?
      && (Classify(SentText(s, Query, false)) == Classified(Query) <==>
            HasCode(LastPiece(Lex(c).value)) || EndsOpen(Lex(c).value))
  {
    var c := DropSemicolon(TrimSpace(s));
    var _, z := TailOf(s);
    var front, last, cut, w := CutSplit(s, c, z);
    JsonFormatIsClause();
    ListWithClause(front, last, JSON_FORMAT);
    QueryListsAgree(Statements(front, "", false), last, cut, w, JSON_FORMAT);
    LastIsLast(front, last);
  }

  /** A text that is sent as it is, but for the blanks around it, keeps its class exactly when trimming does not
      leave a bare '#' as the only code behind its last separator. */
  lemma RawTextIsExact(s: string, kind: StatementKind, formatted: bool)
    requires Classify(s) == Classified(kind) && (kind != Query || formatted)
    ensures var t := SentText(s, kind, formatted);
      t == TrimSpace(s) && Lex(t).Ok? && (Classify(t) == Classified(kind) <==> !BareHash(LastPiece(Lex(t).value)))
  {
    var t := TrimSpace(s);
    var b, _ := TailOf(s);
    var front, last, cut, w := CutSplit(s, t, b);
    var a := Statements(front, "", false);
    BareHashIsCut(a, last, cut, w);
    StatementsByLast(front, last);
    BlankPieceHasNoClass(Text(last), w);
    CutCode(last, cut);
    ListsAgree(a, Text(last) + w, Text(last), BearsBefore(last, cut), HasCode(last));
  }

  lemma CutCode(last: seq<Token>, cut: Option<Token>)
    requires cut.Some? ==> last != [] && (EndsOpen(last) || EndsHash(last))
    ensures BearsBefore(last, cut) ==> HasCode(last)
    ensures BearsBefore(last, cut) || !HasCode(last) <==> cut.None? || !BareHash(last)
  {
    if cut.Some? { LastCode(last); }
  }

  // ---------------------------------------------------------------- texts that are sent as something else

  /** A word that is one statement on its own. */
  ghost predicate IsWord(w: string) { AllPlain(w) && Firm(w) && IsLetter(w[0]) && HasCode(Singles(w)) }

  lemma WordAlone(w: string)
    requires IsWord(w)
    ensures Statements(Singles(w), "", false) == [w] && VerdictOn(w) == ClassifyBody(w)
  {
    PlainChain(w, "");
    StatementsOfPiece(Singles(w), "", false);
    TrimFixed(w);
    assert "" + w == w;
    LetterIsBody(w);
  }

  lemma SeparatorChain(more: seq<Token>)
    requires Chain(more, "")
    ensures Chain([SEMI] + more, "") && Text([SEMI] + more) == ";" + Text(more)
  {
    assert ([SEMI] + more)[1..] == more;
  }

  lemma WordChain(w: string, more: seq<Token>)
    requires AllPlain(w) && Chain(more, "")
    ensures Chain(Singles(w) + more, "") && Text(Singles(w) + more) == w + Text(more)
  {
    PlainChain(w, Text(more));
    assert Text(more) + "" == Text(more);
    ChainAppend(Singles(w), more, "");
    TextAppend(Singles(w), more);
  }

  /** A word, a separator, and the tokens `more` behind it. */
  function Separated(w: string, more: seq<Token>): seq<Token> { Singles(w) + ([SEMI] + more) }

  lemma SeparatedLex(w: string, more: seq<Token>, y: string)
    requires AllPlain(w) && Chain(more, "") && y == Text(more)
    ensures Chain(Separated(w, more), "") && Text(Separated(w, more)) == w + (";" + y)
    ensures Lex(w + (";" + y)) == Ok(Separated(w, more))
  {
    SeparatorChain(more);
    WordChain(w, [SEMI] + more);
    ChainIsLex(Separated(w, more));
  }

  lemma SeparatedStatements(w: string, more: seq<Token>)
    requires IsWord(w)
    ensures Statements(Separated(w, more), "", false) == [w] + Statements(more, "", false)
  {
    var front := Singles(w) + [SEMI];
    Assoc(Singles(w), [SEMI], more);
    WordAlone(w);
    SeparatorEnds(Singles(w), SEMI);
    StatementsBehind(front, more, "", false);
  }

  lemma SeparatedVerdict(w: string, more: seq<Token>, y: string)
    requires IsWord(w) && Chain(more, "") && y == Text(more) && Statements(more, "", false) == []
    ensures Classify(w + (";" + y)) == ClassifyBody(w)
  {
    SeparatedLex(w, more, y);
    SeparatedStatements(w, more);
    WordAlone(w);
    TrimFixed(w);
    assert [w] + [] == [w];
  }

  lemma SeparatorAlone()
    ensures Chain([SEMI], "") && Text([SEMI]) == ";" && Statements([SEMI], "", false) == []
  {
    SeparatorChain([]);
    assert [SEMI] + [] == [SEMI] && [SEMI][1..] == [];
  }

  lemma SeparatedClause(w: string, f: string)
    requires IsWord(w) && IsClause(f)
    ensures Split(w + ";" + f) == Ok([w] + [TrimSpace(f)])
  {
    var front := Separated(w, []);
    SeparatedLex(w, [], "");
    SeparatedStatements(w, []);
    assert [w] + [] == [w] && ";" + "" == ";" && front + [] == front && "" + f == f;
    assert front[|front| - 1] == SEMI;
    ListWithClause(front, [], f);
    ClauseCode([], f);
  }

  lemma LastSeparator(w: string)
    requires w != "" && !IsBlank(w[0])
    ensures DropSemicolon(TrimSpace(w + (";" + ";"))) == w + ";"
  {
    var s := w + (";" + ";");
    TrimFixed(s);
    assert s[..|s| - 1] == w + ";";
  }

  /** A query that is sent as two statements: only the last of its two separators is taken off. */
  lemma SecondSeparatorStays() returns (s: string)
    ensures s == "SHOW" + (";" + ";") && Classify(s) == Classified(Query)
    ensures Split(SentText(s, Query, false)) == Ok(["SHOW"] + [TrimSpace(JSON_FORMAT)])
    ensures Classify(SentText(s, Query, false)) == Rejected(NotOneStatement)
  {
    s := "SHOW" + (";" + ";");
    ShowIsCode();
    ShowIsQuery();
    SeparatorAlone();
    SeparatedVerdict("SHOW", [SEMI], ";");
    LastSeparator("SHOW");
    JsonFormatIsClause();
    SeparatedClause("SHOW", JSON_FORMAT);
  }

  lemma HashTokens(comment: Token, hash: Token)
    requires comment == Token(LineComment, "# ") && hash == Token(Code, "#")
    ensures Chain([comment], "") && Text([comment]) == "# " && Statements([comment], "", false) == []
    ensures Chain([hash], "") && Text([hash]) == "#" && LastPiece([hash]) == [hash] && BareHash([hash])
  {
    assert "# " + "" == "# " && "#" + "" == "#";
    ChainOfOne(comment, "");
    assert forall tag :: IsTag(tag) ==> tag[0] == '$';
    ChainOfOne(hash, "");
    StatementsOfPiece([comment], "", false);
    assert [hash][..0] == [];
  }

  lemma {:induction false} LastPieceBehind(toks: seq<Token>, semi: Token, last: seq<Token>)
    requires semi.kind == Semicolon && NoSemicolon(last)
    ensures LastPiece(toks + ([semi] + last)) == last
    decreases |toks|
  {
    var all := toks + ([semi] + last);
    assert all[|toks|] == semi;
    if toks == [] {
      assert all[1..] == last;
    } else {
      assert all[1..] == toks[1..] + ([semi] + last);
      LastPieceBehind(toks[1..], semi, last);
    }
  }

  lemma TrimmedComment(w: string)
    requires w != "" && !IsBlank(w[0])
    ensures TrimSpace(w + (";" + "# ")) == w + (";" + "#")
  {
    var t := w + (";" + "#");
    TrimAround("", t, " ");
    assert "" + t + " " == w + (";" + "# ");
  }

  lemma BareHashIsSent(w: string, last: seq<Token>, s: string, y: string, kind: StatementKind)
    requires AllPlain(w) && Chain(last, "") && NoSemicolon(last) && BareHash(last) && Text(last) == y
    requires TrimSpace(s) == w + (";" + y) && Classify(s) == Classified(kind) && kind != Query
    ensures Classify(SentText(s, kind, false)) != Classified(kind)
  {
    SeparatedLex(w, last, y);
    LastPieceBehind(Singles(w), SEMI, last);
    RawTextIsExact(s, kind, false);
  }

  /** A word, a separator, and a comment that trimming cuts down to its opener. */
  lemma CommentBehindWord(w: string, kind: StatementKind, s: string)
    requires IsWord(w) && ClassifyBody(w) == Classified(kind) && kind != Query && s == w + (";" + "# ")
    ensures Classify(s) == Classified(kind) != Classify(SentText(s, kind, false))
  {
    var comment, hash := Token(LineComment, "# "), Token(Code, "#");
    HashTokens(comment, hash);
    SeparatedVerdict(w, [comment], "# ");
    TrimmedComment(w);
    BareHashIsSent(w, [hash], s, "#", kind);
  }

  lemma KillIsWord()
    ensures IsWord("KILL") && LetterLen("KILL") == 4 && Upper("KILL") == "KILL"
  {
    UpperStays("KILL");
  }

  lemma KillIsDdl()
    ensures ClassifyBody("KILL") == Classified(Ddl)
  {
    var w := "KILL";
    KillIsWord();
    assert w[..4] == w && DDL_WORDS[7] == w;
    NoOtherK();
  }

  lemma NoOtherK()
    ensures forall k :: 0 <= k < |QUERY_WORDS| ==> QUERY_WORDS[k][0] != 'K'
    ensures forall k :: 0 <= k < |DML_WORDS| ==> DML_WORDS[k][0] != 'K'
  {}

  /** A text that is sent as two statements: trimming turns the comment behind its separator into code. */
  lemma CommentBecomesCode() returns (s: string)
    ensures s == "KILL" + (";" + "# ") && Classify(s) == Classified(Ddl) != Classify(SentText(s, Ddl, false))
  {
    s := "KILL" + (";" + "# ");
    KillIsWord();
    KillIsDdl();
    CommentBehindWord("KILL", Ddl, s);
  }
}
