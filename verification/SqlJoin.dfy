/** Which separators are safe between statements: a semicolon alone is not. */
module SqlJoin {
  import opened SqlText
  import opened SqlLexer
  import opened SqlGrammar
  import opened SqlSplit
  import opened SqlStability
  import opened SqlResplit

  lemma {:induction false} FirstStatement(toks: seq<Token>, cur: string) returns (z: string)
    ensures var r := Statements(toks, cur, true); r != [] && r[0] == TrimSpace(cur + z)
  {
    if toks == [] {
      z := "";
      assert cur + "" == cur;
    } else if toks[0].kind == Semicolon {
      z := "";
      assert cur + "" == cur;
    } else {
      var z' := FirstStatement(toks[1..], cur + toks[0].text);
      z := toks[0].text + z';
      TextBehind(cur, toks[0].text, z');
    }
  }

  lemma {:induction false} StatementsAfterCode(piece: seq<Token>, toks: seq<Token>, cur: string, code: bool)
    requires NoSemicolon(piece)
    ensures Statements(piece + toks, cur, code) == Statements(toks, cur + Text(piece), code || HasCode(piece))
  {
    if piece == [] {
      assert piece + toks == toks && cur + "" == cur;
    } else {
      assert (piece + toks)[0] == piece[0] && (piece + toks)[1..] == piece[1..] + toks;
      StatementsAfterCode(piece[1..], toks, cur + piece[0].text, code || IsCode(piece[0]));
      TextBehind(cur, piece[0].text, Text(piece[1..]));
    }
  }

  /** Trimming keeps everything up to a non-blank byte. */
  lemma TrimKeeps(s: string, k: nat)
    requires k < |s| && !IsBlank(s[0]) && !IsBlank(s[k])
    ensures |TrimSpace(s)| > k
  {
    assert TrimLeft(s) == s;
    var b := TrimRightParts(s);
    assert forall j :: |TrimRight(s)| <= j < |s| ==> IsBlank(s[j]);
  }

  /** The statement ends inside a line comment. */
  ghost predicate EndsInComment(x: string) { Lex(x).Ok? && EndsOpen(Lex(x).value) }

  lemma SemicolonCloses(x: string, more: string)
    requires IsStatement(x) && !EndsInComment(x)
    ensures Split(x + ";" + more) == match Split(more) case Err(e) => Err(e) case Ok(rest) => Ok([x] + rest)
  {
    var b := ";" + more;
    assert x + ";" + more == x + b && b[0] == ';';
    LexAppend(x, b);
    LexSemi(more);
    LexText(x);
    SplitBefore(x + b, Lex(x).value, more);
    TrimFixed(x);
    assert "" + x == x;
  }

  lemma SwallowedHead(x: string, line: string, z: string)
    requires Firm(x) && line != "" && line[0] == ';'
    ensures TrimSpace((x + line) + z) != x
  {
    var all := (x + line) + z;
    assert all[0] == x[0] && all[|x|] == ';';
    TrimKeeps(all, |x|);
  }

  lemma GrownStatement(x: string, line: string, rest: string)
    requires IsStatement(x) && EndsInComment(x) && line != "" && line[0] == ';'
    requires Lex(rest).Ok?
    ensures var r := Statements(Grown(Lex(x).value, line) + Lex(rest).value, "", false); r != [] && r[0] != x
  {
    var piece := Grown(Lex(x).value, line);
    GrownKeeps(Lex(x).value, line);
    LexText(x);
    StatementsAfterCode(piece, Lex(rest).value, "", false);
    assert "" + Text(piece) == Text(piece) == x + line;
    var z := FirstStatement(Lex(rest).value, Text(piece));
    SwallowedHead(x, line, z);
  }

  /** Behind an open line comment the semicolon is comment, and the statement goes on. */
  lemma SemicolonIsSwallowed(x: string, more: string)
    requires IsStatement(x) && EndsInComment(x)
    ensures var r := Split(x + ";" + more); r.Ok? ==> r.value != [] && r.value[0] != x
  {
    var b := ";" + more;
    assert x + ";" + more == x + b && b[0] == ';';
    LexAppendOpen(x, b);
    if Lex(b[LineEnd(b)..]).Ok? { GrownStatement(x, b[..LineEnd(b)], b[LineEnd(b)..]); }
  }

  /** Splitting undoes joining with a semicolon alone exactly when no statement but the last ends inside a line
      comment. */
  lemma {:induction false} SemicolonJoin(xs: seq<string>)
    requires forall k :: 0 <= k < |xs| ==> Split(xs[k]) == Ok([xs[k]])
    ensures Split(Join(xs, ";")) == Ok(xs) <==> forall k :: 0 <= k < |xs| - 1 ==> !EndsInComment(xs[k])
  {
    if |xs| == 1 {
      assert xs == [xs[0]];
    } else if |xs| > 1 {
      var x, more := xs[0], Join(xs[1..], ";");
      SplitToItself(x);
      if EndsInComment(x) {
        SemicolonIsSwallowed(x, more);
      } else {
        SemicolonCloses(x, more);
        SemicolonJoin(xs[1..]);
        SameTail(x, xs, Split(more));
        TailCloses(xs);
      }
    }
  }

  lemma TailCloses(xs: seq<string>)
    requires |xs| > 1
    ensures (forall k :: 0 <= k < |xs| - 2 ==> !EndsInComment(xs[1..][k])) <==>
      forall k :: 0 < k < |xs| - 1 ==> !EndsInComment(xs[k])
  {
    assert forall k :: 0 < k < |xs| - 1 ==> xs[k] == xs[1..][k - 1];
    assert forall k :: 0 <= k < |xs| - 2 ==> xs[1..][k] == xs[k + 1];
  }

  lemma SameTail(x: string, xs: seq<string>, r: Result<seq<string>>)
    requires xs != [] && x == xs[0]
    ensures r.Ok? ==> ([x] + r.value == xs <==> r.value == xs[1..])
  {
    if r.Ok? { assert ([x] + r.value)[1..] == r.value; }
  }

  // ---------------------------------------------------------------- a statement that ends in a comment

  lemma DashesAreComment(t: Token)
    requires t == Token(LineComment, "--")
    ensures TokenAt(t, "") && IsOpen(t) && !IsBlank(t.text[1]) && |t.text| == 2
  {
    assert t.text + "" == t.text;
  }

  lemma CodeBeforeToken(w: string, t: Token)
    requires HasCode(Singles(w)) && t.kind != Semicolon
    ensures HasCode(Singles(w) + [t]) && NoSemicolon(Singles(w) + [t])
  {
    HasCodeAppend(Singles(w), [t]);
  }

  lemma FirmTogether(w: string, text: string)
    requires w != "" && !IsBlank(w[0]) && text != "" && !IsBlank(text[|text| - 1])
    ensures Firm(w + text)
  {
    LastBehind(w, text);
  }

  /** Plain code with an open line comment behind it. */
  lemma CommentedStatement(w: string, t: Token, x: string)
    requires AllPlain(w) && HasCode(Singles(w)) && w != "" && !IsBlank(w[0]) && x == w + t.text
    requires t.text != "" && t.kind == LineComment && TokenAt(t, "") && IsOpen(t) && !IsBlank(t.text[|t.text| - 1])
    ensures IsStatement(x) && EndsInComment(x) && Lex(x) == Ok(Singles(w) + [t])
  {
    LexPlainToken(w, t);
    CodeBeforeToken(w, t);
    FirmTogether(w, t.text);
  }

  lemma DashedStatement(w: string, x: string)
    requires AllPlain(w) && HasCode(Singles(w)) && w != "" && !IsBlank(w[0]) && x == w + "--"
    ensures IsStatement(x) && EndsInComment(x)
  {
    var t := Token(LineComment, "--");
    DashesAreComment(t);
    CommentedStatement(w, t, x);
  }

  lemma ShowIsCode()
    ensures AllPlain("SHOW") && HasCode(Singles("SHOW")) && !IsBlank('S')
  {}

  lemma JoinOfTwo(x: string, y: string, sep: string)
    ensures Join([x, y], sep) == x + sep + y
  {
    assert [x, y][1..] == [y];
  }

  /** Two statements that a semicolon between them does not separate. */
  lemma SemicolonJoinFails() returns (x: string, y: string)
    ensures x == "SHOW" + "--" && y == "SHOW"
    ensures Split(x) == Ok([x]) && Split(y) == Ok([y]) && Split(Join([x, y], ";")) != Ok([x, y])
  {
    x, y := "SHOW" + "--", "SHOW";
    ShowIsCode();
    DashedStatement("SHOW", x);
    SplitToItself(x);
    PlainStatement(y);
    SemicolonIsSwallowed(x, y);
    JoinOfTwo(x, y, ";");
  }

  lemma PlainStatement(y: string)
    requires AllPlain(y) && HasCode(Singles(y)) && Firm(y)
    ensures Split(y) == Ok([y])
  {
    PlainChain(y, "");
    ChainIsLex(Singles(y));
    SplitToItself(y);
  }
}
