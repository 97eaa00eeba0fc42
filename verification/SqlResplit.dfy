/** Splitting text that was already split: stability, and joining as the inverse of splitting. */
module SqlResplit {
  import opened SqlText
  import opened SqlLexer
  import opened SqlGrammar
  import opened SqlSplit
  import opened SqlStability

  // ---------------------------------------------------------------- statements of one piece

  lemma {:induction false} StatementsOfPiece(toks: seq<Token>, cur: string, code: bool)
    requires NoSemicolon(toks)
    ensures Statements(toks, cur, code) == Emit(cur + Text(toks), code || HasCode(toks))
  {
    if toks == [] {
      assert cur + "" == cur;
    } else {
      StatementsOfPiece(toks[1..], cur + toks[0].text, code || IsCode(toks[0]));
      TextBehind(cur, toks[0].text, Text(toks[1..]));
    }
  }

  lemma {:induction false} StatementsBefore(piece: seq<Token>, semi: Token, more: seq<Token>, cur: string, code: bool)
    requires NoSemicolon(piece) && semi.kind == Semicolon
    ensures Statements(piece + ([semi] + more), cur, code)
         == Emit(cur + Text(piece), code || HasCode(piece)) + Statements(more, "", false)
  {
    if piece == [] {
      assert piece + ([semi] + more) == [semi] + more;
      assert ([semi] + more)[1..] == more;
      assert cur + "" == cur;
    } else {
      var all := piece + ([semi] + more);
      assert all[0] == piece[0] && all[1..] == piece[1..] + ([semi] + more);
      StatementsBefore(piece[1..], semi, more, cur + piece[0].text, code || IsCode(piece[0]));
      TextBehind(cur, piece[0].text, Text(piece[1..]));
    }
  }

  /** A text that the splitter takes for one statement and leaves as it is. */
  ghost predicate IsStatement(x: string) {
    Firm(x) && Lex(x).Ok? && NoSemicolon(Lex(x).value) && HasCode(Lex(x).value)
  }

  lemma {:induction false} StatementLengths(toks: seq<Token>, cur: string, code: bool)
    requires forall t :: t in toks && t.kind == Semicolon ==> t.text == ";"
    ensures forall x :: x in Statements(toks, cur, code) ==>
      |x| <= |cur| + |Text(toks)| && (!NoSemicolon(toks) ==> |x| < |cur| + |Text(toks)|)
  {
    if toks != [] {
      var t, more := toks[0], toks[1..];
      if t.kind == Semicolon {
        StatementLengths(more, "", false);
      } else {
        StatementLengths(more, cur + t.text, code || IsCode(t));
        assert NoSemicolon(more) ==> NoSemicolon(toks);
      }
    }
  }

  lemma SplitToItself(x: string)
    ensures Split(x) == Ok([x]) <==> IsStatement(x)
  {
    if Lex(x).Ok? {
      var toks := Lex(x).value;
      LexSemicolons(x);
      LexText(x);
      StatementLengths(toks, "", false);
      assert Split(x) == Ok([x]) ==> x in Statements(toks, "", false);
      if NoSemicolon(toks) {
        StatementsOfPiece(toks, "", false);
        assert "" + x == x;
        if Firm(x) { TrimFixed(x); }
      }
      if x == "" { assert toks == []; }
    }
  }

  // ---------------------------------------------------------------- trimming a piece

  ghost predicate AllSpace(s: string) { forall k :: 0 <= k < |s| ==> IsSpace(s[k]) }

  lemma FirstByte(t: Token, rest: string)
    requires t.text != "" && TokenAt(t, rest)
    ensures match t.kind
      case LineComment => t.text[0] == '-' || t.text[0] == '/' || t.text[0] == '#'
      case BlockComment => t.text[0] == '/'
      case Heredoc => t.text[0] == '$'
      case Quoted => IsQuote(t.text[0])
      case _ => |t.text| == 1
  {
    assert (t.text + rest)[0] == t.text[0];
  }

  lemma BlankFirst(t: Token, rest: string)
    requires t.text != "" && TokenAt(t, rest) && IsBlank(t.text[0])
    ensures |t.text| == 1 && (t.kind == Space || t.kind == Code)
    ensures IsSpace(t.text[0]) ==> t.kind == Space
  {
    FirstByte(t, rest);
  }

  /** Blanks in front of a chain are tokens of their own and can be dropped. */
  lemma {:induction false} ChainTrimHead(toks: seq<Token>, a: string, s: string) returns (r: seq<Token>)
    requires Chain(toks, "") && Text(toks) == a + s && AllBlank(a)
    ensures Chain(r, "") && Text(r) == s
    ensures NoSemicolon(toks) ==> NoSemicolon(r)
    ensures AllSpace(a) ==> HasCode(r) == HasCode(toks)
    ensures forall t :: t in r ==> t in toks
  {
    if a == "" {
      r := toks;
      assert a + s == s;
    } else {
      var t := toks[0];
      assert (a + s)[0] == a[0] && Text(toks)[0] == t.text[0];
      BlankFirst(t, Text(toks[1..]) + "");
      assert (a + s)[1..] == a[1..] + s && Text(toks)[1..] == Text(toks[1..]);
      r := ChainTrimHead(toks[1..], a[1..], s);
    }
  }

  lemma {:induction false} ClosedEnds(b: Body)
    ensures Closed(b)[|Closed(b)| - 1] == '/'
  {
    match b {
      case End =>
      case Byte(c, tail) => ClosedEnds(tail);
      case Nest(inner, tail) => ClosedEnds(tail);
    }
  }

  lemma LastByte(t: Token, rest: string)
    requires t.text != "" && TokenAt(t, rest)
    ensures var c := t.text[|t.text| - 1];
      match t.kind
      case BlockComment => c == '/'
      case Heredoc => c == '$'
      case Quoted => IsQuote(c)
      case LineComment => true
      case _ => |t.text| == 1
  {
    match t.kind {
      case BlockComment =>
        var b :| IsBlockText(t.text, b);
        ClosedEnds(b);
        assert t.text[|t.text| - 1] == t.text[2..][|t.text| - 3];
      case Heredoc =>
        var tag :| IsHeredocText(t.text, tag);
        assert t.text[|t.text| - |tag|..|t.text|][|tag| - 1] == tag[|tag| - 1];
      case _ =>
    }
  }

  /** A line comment cut in front of a blank or a semicolon is an open line comment, or a bare '#', which is code. */
  lemma CutComment(t: Token, rest: string, a: string) returns (u: Token)
    requires t.kind == LineComment && TokenAt(t, rest)
    requires a != "" && |a| < |t.text| && a <= t.text && Inert(t.text[|a|])
    ensures u.text == a && TokenAt(u, "") && (IsOpen(u) || IsHash(u))
  {
    var s := t.text + rest;
    assert a + "" == a;
    assert a[0] == s[0] && t.text[1] == s[1];
    if |a| == 1 {
      u := Token(Code, a);
    } else {
      u := Token(LineComment, a);
      assert a[1] == s[1];
    }
  }

  lemma {:induction false} SpacesBearNoCode(toks: seq<Token>)
    requires Chain(toks, "") && AllSpace(Text(toks))
    ensures !HasCode(toks)
  {
    if toks != [] {
      var t, more := toks[0], toks[1..];
      assert Text(toks)[0] == t.text[0];
      BlankFirst(t, Text(more) + "");
      assert forall k :: 0 <= k < |Text(more)| ==> Text(more)[k] == Text(toks)[k + 1];
      SpacesBearNoCode(more);
    }
  }

  /** Cutting the blanks `b` off the end of a piece leaves a piece. */
  lemma {:induction false} ChainTrimTail(toks: seq<Token>, a: string, b: string) returns (r: seq<Token>)
    requires Chain(toks, "") && NoSemicolon(toks)
    requires Text(toks) == a + b && AllBlank(b) && (a != "" ==> !IsBlank(a[|a| - 1]))
    ensures Chain(r, "") && NoSemicolon(r) && Text(r) == a
    ensures AllSpace(b) && HasCode(toks) ==> HasCode(r)
    ensures forall u :: u in r ==> u in toks || u.kind == LineComment || u.text == "#"
  {
    if a == "" {
      r := [];
      assert a + b == b;
      if AllSpace(b) { SpacesBearNoCode(toks); }
    } else {
      var t, more := toks[0], toks[1..];
      assert Text(more) + "" == Text(more);
      if |t.text| <= |a| {
        var a' := a[|t.text|..];
        TrimTailStep(t, Text(more), a, b);
        var r' := ChainTrimTail(more, a', b);
        CutBehind(t, a', b);
        r := [t] + r';
        assert r[1..] == r' && a' + "" == a';
      } else {
        r := TrimTailComment(t, more, a, b);
      }
    }
  }

  lemma TrimTailStep(t: Token, more: string, a: string, b: string)
    requires t.text + more == a + b && |t.text| <= |a|
    ensures more == a[|t.text|..] + b && a == t.text + a[|t.text|..]
  {
    assert (t.text + more)[|t.text|..] == more;
    assert (a + b)[|t.text|..] == a[|t.text|..] + b;
    assert (t.text + more)[..|t.text|] == t.text;
    assert (a + b)[..|t.text|] == a[..|t.text|];
  }

  lemma CutPoint(text: string, more: string, a: string, b: string)
    requires text + more == a + b && AllBlank(b) && a != "" && |a| < |text| && !IsBlank(a[|a| - 1])
    ensures a <= text && IsBlank(text[|a|]) && IsBlank(text[|text| - 1])
    ensures AllSpace(b) ==> AllSpace(more)
  {
    var s := a + b;
    assert forall k :: 0 <= k < |text| ==> text[k] == s[k];
    assert forall k :: 0 <= k < |more| ==> more[k] == s[|text| + k] == b[|text| + k - |a|];
    assert text[|a|] == b[0] && text[|text| - 1] == b[|text| - 1 - |a|];
  }

  lemma TrimTailComment(t: Token, more: seq<Token>, a: string, b: string) returns (r: seq<Token>)
    requires t.text != "" && TokenAt(t, Text(more)) && Chain(more, "")
    requires t.text + Text(more) == a + b && AllBlank(b)
    requires a != "" && |a| < |t.text| && !IsBlank(a[|a| - 1])
    ensures Chain(r, "") && NoSemicolon(r) && Text(r) == a
    ensures AllSpace(b) && HasCode([t] + more) ==> HasCode(r)
    ensures forall u :: u in r ==> u.kind == LineComment || u.text == "#"
  {
    CutPoint(t.text, Text(more), a, b);
    LastByte(t, Text(more));
    var u := CutComment(t, Text(more), a);
    r := [u];
    ChainOfOne(u, "");
    if AllSpace(b) {
      SpacesBearNoCode(more);
      assert ([t] + more)[1..] == more;
    }
  }

  /** Trimming a piece gives text that lexes into one piece; code survives unless it was `\f` or `\v`. */
  lemma TrimPiece(toks: seq<Token>) returns (r: seq<Token>)
    requires Chain(toks, "") && NoSemicolon(toks)
    ensures var x := TrimSpace(Text(toks));
      Lex(x) == Ok(r) && NoSemicolon(r)
      && (HasCode(toks) && VT !in Text(toks) && FF !in Text(toks) ==> HasCode(r))
      && (forall u :: u in r ==> u in toks || u.kind == LineComment || u.text == "#")
  {
    var a, b := TrimParts(Text(toks));
    r := TrimAt(toks, a, TrimSpace(Text(toks)), b);
    ChainIsLex(r);
  }

  lemma TrimAt(toks: seq<Token>, a: string, x: string, b: string) returns (r: seq<Token>)
    requires Chain(toks, "") && NoSemicolon(toks)
    requires Text(toks) == a + x + b && AllBlank(a) && AllBlank(b) && (x != "" ==> Firm(x))
    ensures Chain(r, "") && Text(r) == x && NoSemicolon(r)
    ensures HasCode(toks) && VT !in Text(toks) && FF !in Text(toks) ==> HasCode(r)
    ensures forall u :: u in r ==> u in toks || u.kind == LineComment || u.text == "#"
  {
    TextBehind(a, x, b);
    var mid := ChainTrimHead(toks, a, x + b);
    r := ChainTrimTail(mid, x, b);
    if VT !in Text(toks) && FF !in Text(toks) { SpaceEnds(Text(toks), a, x, b); }
  }

  lemma SpaceEnds(s: string, a: string, x: string, b: string)
    requires s == a + x + b && AllBlank(a) && AllBlank(b) && VT !in s && FF !in s
    ensures AllSpace(a) && AllSpace(b)
  {
    assert forall k :: 0 <= k < |a| ==> a[k] == s[k] && s[k] in s;
    assert forall k :: 0 <= k < |b| ==> b[k] == s[|a| + |x| + k] && s[|a| + |x| + k] in s;
  }

  // ---------------------------------------------------------------- splitting is stable

  lemma {:induction false} FirstPieceText(toks: seq<Token>) returns (z: string)
    ensures Text(toks) == Text(Pieces(toks)[0]) + z
    ensures (forall t :: t in toks && t.kind == Semicolon ==> t.text == ";") ==> z == "" || z[0] == ';'
  {
    if toks == [] {
      z := "";
    } else if toks[0].kind == Semicolon {
      z := Text(toks);
      assert "" + z == z && toks[0] in toks;
    } else {
      var z' := FirstPieceText(toks[1..]);
      assert Pieces(toks)[0][1..] == Pieces(toks[1..])[0];
      z := z';
      TextBehind(toks[0].text, Text(Pieces(toks[1..])[0]), z);
    }
  }

  /** Every piece of a chain is a chain on its own, without separators. */
  lemma {:induction false} PiecesAreChains(toks: seq<Token>)
    requires Chain(toks, "")
    ensures forall p :: p in Pieces(toks) ==> Chain(p, "") && NoSemicolon(p)
  {
    if toks != [] {
      var t, more := toks[0], toks[1..];
      PiecesAreChains(more);
      var first := Pieces(more)[0];
      assert first in Pieces(more);
      if t.kind == Semicolon {
        assert forall p :: p in Pieces(toks) ==> p == [] || p in Pieces(more);
      } else {
        var z := FirstPieceText(more);
        assert Text(more) + "" == Text(first) + z;
        CutBehind(t, Text(first), z);
        FirstPieceChain(t, first);
        assert forall p :: p in Pieces(toks) ==> p == [t] + first || p in Pieces(more);
      }
    }
  }

  lemma FirstPieceChain(t: Token, first: seq<Token>)
    requires t.text != "" && TokenAt(t, Text(first)) && t.kind != Semicolon
    requires Chain(first, "") && NoSemicolon(first)
    ensures Chain([t] + first, "") && NoSemicolon([t] + first)
  {
    assert Text(first) + "" == Text(first);
    assert ([t] + first)[1..] == first;
  }

  lemma {:induction false} CodePieceOf(pieces: seq<seq<Token>>, x: string) returns (p: seq<Token>)
    requires x in CodePieces(pieces)
    ensures p in pieces && HasCode(p) && x == TrimSpace(Text(p))
  {
    var here := Emit(Text(pieces[0]), HasCode(pieces[0]));
    if x in here {
      p := pieces[0];
    } else {
      p := CodePieceOf(pieces[1..], x);
    }
  }

  lemma {:induction false} PieceTextIn(toks: seq<Token>, p: seq<Token>, c: char)
    requires p in Pieces(toks) && c in Text(p)
    ensures c in Text(toks)
  {
    if toks != [] {
      var t, more := toks[0], toks[1..];
      if p in Pieces(more) {
        PieceTextIn(more, p, c);
      } else if t.kind != Semicolon {
        var first := Pieces(more)[0];
        assert p == [t] + first && p[1..] == first;
        if c !in t.text { PieceTextIn(more, first, c); }
      }
    }
  }

  /** The text bears code: some token of it is neither a space nor a comment nor a separator. */
  ghost predicate BearsCode(x: string) { Lex(x).Ok? && HasCode(Lex(x).value) }

  /** Every output is trimmed and splits again into itself, or into nothing when trimming took its only code. */
  lemma SplitAgain(s: string, x: string)
    requires Split(s).Ok? && x in Split(s).value
    ensures TrimSpace(x) == x
    ensures Split(x) == Ok(if BearsCode(x) then [x] else [])
    ensures VT !in s && FF !in s ==> BearsCode(x)
  {
    var p := OutputPiece(s, x);
    var r := TrimPiece(p);
    TrimFixed(x);
    LexText(x);
    StatementsOfPiece(r, "", false);
    assert "" + x == x;
  }

  /** The piece of the source that an output was trimmed from. */
  lemma OutputPiece(s: string, x: string) returns (p: seq<Token>)
    requires Split(s).Ok? && x in Split(s).value
    ensures Chain(p, "") && NoSemicolon(p) && HasCode(p) && x == TrimSpace(Text(p))
    ensures VT !in s && FF !in s ==> VT !in Text(p) && FF !in Text(p)
  {
    var toks := Lex(s).value;
    LexIsChain(s);
    SplitIsCodePieces(s);
    p := CodePieceOf(Pieces(toks), x);
    PiecesAreChains(toks);
    if VT in Text(p) { PieceTextIn(toks, p, VT); }
    if FF in Text(p) { PieceTextIn(toks, p, FF); }
  }

  /** On text without form feeds and vertical tabs, each output is a fixed point of splitting. */
  lemma SplitIsStable(s: string, x: string)
    requires Split(s).Ok? && x in Split(s).value && VT !in s && FF !in s
    ensures Split(x) == Ok([x])
  {
    SplitAgain(s, x);
  }

  /** The one gap: a lone form feed is one statement, whose trimmed text is no statement. */
  lemma FormFeedSplitsToBlank()
    ensures Split([FF]) == Ok([""]) && Split("") == Ok([])
  {
    var t := Token(Code, [FF]);
    assert t.text + "" == [FF];
    assert forall tag :: IsTag(tag) ==> tag[0] == '$';
    assert TokenAt(t, "");
    assert [t][1..] == [] && Text([]) + "" == "";
    assert Chain([t], "");
    assert Text([t]) == [FF];
    ChainIsLex([t]);
    StatementsOfPiece([t], "", false);
    TrimAround([FF], "", "");
    assert [FF] + "" + "" == "" + [FF];
  }

  // ---------------------------------------------------------------- splitting undoes joining

  const FEED := Token(Space, "\n")
  const SEMI := Token(Semicolon, ";")

  /** A statement closed by a line feed and a semicolon, in front of any text. */
  lemma LexLine(x: string, more: string) returns (body: seq<Token>)
    requires Lex(x).Ok? && NoSemicolon(Lex(x).value)
    ensures NoSemicolon(body) && HasCode(body) == HasCode(Lex(x).value) && Text(body) == x + "\n"
    ensures Lex(x + "\n;" + more) == Then(body, Then([SEMI], Lex(more)))
  {
    LexText(x);
    TextBehind(x, "\n;", more);
    if EndsOpen(Lex(x).value) {
      body := Grown(Lex(x).value, "\n");
      LexLineOpen(x, more);
      GrownKeeps(Lex(x).value, "\n");
    } else {
      body := Lex(x).value + [FEED];
      LexLineClosed(x, more);
      FeedKeeps(Lex(x).value);
    }
  }

  lemma FeedKeeps(toks: seq<Token>)
    ensures NoSemicolon(toks) ==> NoSemicolon(toks + [FEED])
    ensures HasCode(toks + [FEED]) == HasCode(toks) && Text(toks + [FEED]) == Text(toks) + "\n"
  {
    HasCodeAppend(toks, [FEED]);
    TextAppend(toks, [FEED]);
    assert Text([FEED]) == "\n";
  }

  lemma LexLineOpen(x: string, more: string)
    requires Lex(x).Ok? && EndsOpen(Lex(x).value)
    ensures Lex(x + ("\n;" + more)) == Then(Grown(Lex(x).value, "\n"), Then([SEMI], Lex(more)))
  {
    FeedLine(more);
    LexAppendOpen(x, "\n;" + more);
    LexSemi(more);
  }

  lemma FeedLine(more: string)
    ensures var b := "\n;" + more;
      LineEnd(b) == 1 && b[..1] == "\n" && b[1..] == ";" + more && b[0] == '\n'
  {}

  lemma LexLineClosed(x: string, more: string)
    requires Lex(x).Ok? && !EndsOpen(Lex(x).value)
    ensures Lex(x + ("\n;" + more)) == Then(Lex(x).value + [FEED], Then([SEMI], Lex(more)))
  {
    var b := "\n;" + more;
    assert b[0] == '\n';
    LexAppend(x, b);
    LexFeedSemi(more);
    ThenThen(Lex(x).value, [FEED], Then([SEMI], Lex(more)));
  }

  lemma LexSemi(more: string)
    ensures Lex(";" + more) == Then([SEMI], Lex(more))
  {
    LexStep(SEMI, more);
  }

  lemma LexFeedSemi(more: string)
    ensures Lex("\n;" + more) == Then([FEED], Then([SEMI], Lex(more)))
  {
    LexSemi(more);
    LexFeed(";" + more);
    FeedThenSemi(more);
  }

  lemma FeedThenSemi(more: string)
    ensures "\n" + (";" + more) == "\n;" + more
  {}

  lemma LexFeed(rest: string)
    ensures Lex("\n" + rest) == Then([FEED], Lex(rest))
  {
    LexStep(FEED, rest);
  }

  lemma {:induction false} HasCodeAppend(a: seq<Token>, b: seq<Token>)
    ensures HasCode(a + b) <==> HasCode(a) || HasCode(b)
  {
    if a == [] {
      assert a + b == b;
    } else {
      assert (a + b)[0] == a[0] && (a + b)[1..] == a[1..] + b;
      HasCodeAppend(a[1..], b);
    }
  }

  lemma GrownKeeps(toks: seq<Token>, line: string)
    requires EndsOpen(toks)
    ensures NoSemicolon(toks) ==> NoSemicolon(Grown(toks, line))
    ensures HasCode(Grown(toks, line)) == HasCode(toks)
    ensures Text(Grown(toks, line)) == Text(toks) + line
  {
    var a, t := toks[..|toks| - 1], toks[|toks| - 1];
    var u := Token(LineComment, t.text + line);
    assert toks == a + [t];
    HasCodeAppend(a, [t]);
    HasCodeAppend(a, [u]);
    TextAppend(a, [t]);
    TextAppend(a, [u]);
    TextBehind(Text(a), t.text, line);
    assert Text([t]) == t.text && Text([u]) == u.text;
  }

  /** A statement closed by a line feed and a semicolon is split off the front of any text. */
  lemma SplitLine(x: string, more: string)
    requires IsStatement(x)
    ensures Split(x + "\n;" + more) ==
      match Split(more) case Err(e) => Err(e) case Ok(rest) => Ok([x] + rest)
  {
    var body := LexLine(x, more);
    TrimLine(x);
    SplitBefore(x + "\n;" + more, body, more);
  }

  lemma TrimLine(x: string)
    requires Firm(x)
    ensures TrimSpace("" + (x + "\n")) == x
  {
    TrimAround("", x, "\n");
    assert "" + x + "\n" == "" + (x + "\n");
  }

  lemma SplitBefore(s: string, body: seq<Token>, more: string)
    requires NoSemicolon(body) && Lex(s) == Then(body, Then([SEMI], Lex(more)))
    ensures Split(s) == match Split(more)
                        case Err(e) => Err(e)
                        case Ok(rest) => Ok(Emit("" + Text(body), HasCode(body)) + rest)
  {
    if Lex(more).Ok? {
      StatementsBefore(body, SEMI, Lex(more).value, "", false);
    }
  }

  /** A line that bears no code is split off without a trace. */
  lemma SplitDeadLine(x: string, more: string)
    requires Lex(x).Ok? && NoSemicolon(Lex(x).value) && !BearsCode(x)
    ensures Split(x + "\n;" + more) == Split(more)
  {
    var body := LexLine(x, more);
    SplitBefore(x + "\n;" + more, body, more);
    if Split(more).Ok? { assert [] + Split(more).value == Split(more).value; }
  }

  /** What an output of the splitter is: trimmed, and one piece, with or without code. */
  ghost predicate IsOutput(x: string) {
    Lex(x).Ok? && NoSemicolon(Lex(x).value) && Split(x) == Ok(if BearsCode(x) then [x] else [])
  }

  lemma OutputIsOutput(s: string, x: string)
    requires Split(s).Ok? && x in Split(s).value
    ensures IsOutput(x)
  {
    var p := OutputPiece(s, x);
    var r := TrimPiece(p);
    SplitAgain(s, x);
  }

  /** The texts that bear code, in order. */
  ghost function Bearing(xs: seq<string>): (r: seq<string>)
    ensures |r| <= |xs| && (|r| == |xs| <==> forall x :: x in xs ==> BearsCode(x))
    ensures |r| == |xs| ==> r == xs
  {
    if xs == [] then []
    else
      assert xs == [xs[0]] + xs[1..];
      (if BearsCode(xs[0]) then [xs[0]] else []) + Bearing(xs[1..])
  }

  /** Splitting what was joined with a line feed and a semicolon gives the texts that bear code. */
  lemma {:induction false} SplitJoined(xs: seq<string>)
    requires forall x :: x in xs ==> IsOutput(x)
    ensures Split(Join(xs, "\n;")) == Ok(Bearing(xs))
    decreases |xs|
  {
    if |xs| == 1 {
      assert xs[0] in xs && xs[1..] == [] && [xs[0]] + Bearing([]) == [xs[0]];
    } else if |xs| > 1 {
      var x, more := xs[0], Join(xs[1..], "\n;");
      assert x in xs;
      SplitJoined(xs[1..]);
      if BearsCode(x) {
        SplitToItself(x);
        SplitLine(x, more);
      } else {
        SplitDeadLine(x, more);
        assert [] + Bearing(xs[1..]) == Bearing(xs[1..]);
      }
    }
  }

  /** Splitting undoes joining with a line feed and a semicolon. */
  lemma SplitUndoesJoin(xs: seq<string>)
    requires forall x :: x in xs ==> Split(x) == Ok([x])
    ensures Split(Join(xs, "\n;")) == Ok(xs)
  {
    forall x | x in xs
      ensures IsOutput(x) && BearsCode(x)
    {
      SplitToItself(x);
    }
    SplitJoined(xs);
  }

  /** Splitting, joining and splitting again gives the same statements exactly when each of them bears code. */
  lemma SplitJoinSplit(s: string)
    requires Split(s).Ok?
    ensures Split(Join(Split(s).value, "\n;")) == Split(s) <==> forall x :: x in Split(s).value ==> BearsCode(x)
  {
    forall x | x in Split(s).value
      ensures IsOutput(x)
    {
      OutputIsOutput(s, x);
    }
    SplitJoined(Split(s).value);
  }
}
