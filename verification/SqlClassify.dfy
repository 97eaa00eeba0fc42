/** Leading trivia and statement classes (internal/clickhouse/client.go). */
module SqlClassify {
  import opened SqlText
  import opened SqlLexer
  import opened SqlGrammar
  import opened SqlSplit
  import opened SqlStability
  import opened SqlResplit

  // ---------------------------------------------------------------- leading trivia

  predicate IsTriviaByte(c: char) { IsSpace(c) || c == FF }

  /** The length of the block comment at the head of `s`; an open one reaches to the end. */
  function BlockLen(s: string): (r: nat)
    requires Opens(s, '/', '*')
    ensures 2 <= r <= |s|
  {
    match BlockEnd(s[2..], 1)
    case None => |s|
    case Some(n) => 2 + n
  }

  /** The length of the white space and comments in front of a statement. */
  function Trivia(s: string): (r: nat)
    ensures r <= |s|
  {
    if s == "" then 0
    else if IsTriviaByte(s[0]) then 1 + Trivia(s[1..])
    else
      var o := OpenerLen(s);
      if o > 0 then
        var n := o + LineEnd(s[o..]);
        n + Trivia(s[n..])
      else if Opens(s, '/', '*') then
        var n := BlockLen(s);
        n + Trivia(s[n..])
      else 0
  }

  /** One step of the nesting scan, by positions. */
  lemma BlockEndAt(sql: string, i: nat, depth: nat)
    requires i < |sql| && depth > 0
    ensures BlockEnd(sql[i..], depth) ==
      if Opens(sql[i..], '/', '*') then After(2, BlockEnd(sql[i + 2..], depth + 1))
      else if Opens(sql[i..], '*', '/') then
        if depth == 1 then Some(2) else After(2, BlockEnd(sql[i + 2..], depth - 1))
      else After(1, BlockEnd(sql[i + 1..], depth))
  {
    assert sql[i..][1..] == sql[i + 1..];
    if |sql| >= i + 2 { assert sql[i..][2..] == sql[i + 2..]; }
  }

  /** From `from` at depth 1, the nesting scan has come to `i` at `depth`. */
  ghost predicate InBlock(sql: string, from: nat, i: nat, depth: nat) {
    && from <= i <= |sql|
    && BlockEnd(sql[from..], 1) == if depth == 0 then Some(i - from) else After(i - from, BlockEnd(sql[i..], depth))
  }

  lemma InBlockTurn(sql: string, from: nat, i: nat, depth: nat)
    requires i < |sql| && depth > 0 && InBlock(sql, from, i, depth)
    ensures if Opens(sql[i..], '/', '*') then InBlock(sql, from, i + 2, depth + 1)
            else if Opens(sql[i..], '*', '/') then InBlock(sql, from, i + 2, depth - 1)
            else InBlock(sql, from, i + 1, depth)
  {
    BlockEndAt(sql, i, depth);
  }

  /** One turn of the inner loop over a block comment. */
  method BlockTurn(sql: string, ghost from: nat, at: nat, level: nat) returns (i: nat, depth: nat)
    requires at < |sql| && level > 0 && InBlock(sql, from, at, level)
    ensures at < i && InBlock(sql, from, i, depth)
  {
    InBlockTurn(sql, from, at, level);
    if Opens(sql[at..], '/', '*') {
      i, depth := at + 2, level + 1;
    } else if Opens(sql[at..], '*', '/') {
      i, depth := at + 2, level - 1;
    } else {
      i, depth := at + 1, level;
    }
  }

  /** The inner loop over a block comment. */
  method SkipBlock(sql: string, from: nat) returns (i: nat)
    requires from <= |sql|
    ensures from <= i <= |sql|
    ensures match BlockEnd(sql[from..], 1) case None => i == |sql| case Some(n) => i == from + n
  {
    i := from;
    var depth: nat := 1;
    while i < |sql| && depth > 0
      invariant i <= |sql| && InBlock(sql, from, i, depth)
      decreases |sql| - i
    {
      i, depth := BlockTurn(sql, from, i, depth);
    }
    assert i == |sql| ==> sql[i..] == "";
  }

  /** The outer loop, which must end at `end`, has come to `i`. */
  ghost predicate Skipped(sql: string, i: nat, end: nat) {
    i <= |sql| && end == i + Trivia(sql[i..])
  }

  lemma TriviaComment(s: string, o: nat, n: nat)
    requires s != "" && !IsTriviaByte(s[0]) && o == OpenerLen(s) > 0 && n == LineEnd(s[o..])
    ensures Trivia(s) == o + n + Trivia(s[o + n..])
  {}

  lemma TriviaBlock(s: string, n: nat)
    requires s != "" && !IsTriviaByte(s[0]) && OpenerLen(s) == 0 && Opens(s, '/', '*') && n == BlockLen(s)
    ensures Trivia(s) == n + Trivia(s[n..])
  {}

  lemma TriviaCommentText(s: string, o: nat, n: nat, line: string, rest: string)
    requires s != "" && !IsTriviaByte(s[0]) && o == OpenerLen(s) > 0 && s[o..] == line && n == LineEnd(line)
      && s[o + n..] == rest
    ensures Trivia(s) == o + n + Trivia(rest)
  {
    TriviaComment(s, o, n);
  }

  lemma SkippedLine(sql: string, at: nat, o: nat, next: nat, end: nat)
    requires at < |sql| && Skipped(sql, at, end)
    requires !IsTriviaByte(sql[at]) && o == OpenerLen(sql[at..]) > 0 && next == at + o + LineEnd(sql[at + o..])
    ensures Skipped(sql, next, end)
  {
    DropTwice(sql, at, at + o);
    DropTwice(sql, at, next);
    TriviaCommentText(sql[at..], o, next - at - o, sql[at + o..], sql[next..]);
    SkippedStep(sql, at, next, end);
  }

  lemma DropTwice(sql: string, at: nat, i: nat)
    requires at <= i <= |sql|
    ensures sql[at..][i - at..] == sql[i..]
  {}

  lemma SkippedStep(sql: string, at: nat, i: nat, end: nat)
    requires at <= i <= |sql| && Skipped(sql, at, end) && Trivia(sql[at..]) == (i - at) + Trivia(sql[i..])
    ensures Skipped(sql, i, end)
  {}

  lemma TriviaBlockText(s: string, n: nat, rest: string)
    requires s != "" && !IsTriviaByte(s[0]) && OpenerLen(s) == 0 && Opens(s, '/', '*') && n == BlockLen(s)
      && s[n..] == rest
    ensures Trivia(s) == n + Trivia(rest)
  {
    TriviaBlock(s, n);
  }

  lemma SkippedBlock(sql: string, at: nat, i: nat, end: nat)
    requires at < |sql| && Skipped(sql, at, end)
    requires !IsTriviaByte(sql[at]) && OpenerLen(sql[at..]) == 0 && Opens(sql[at..], '/', '*')
    requires i == at + BlockLen(sql[at..])
    ensures Skipped(sql, i, end)
  {
    DropTwice(sql, at, i);
    TriviaBlockText(sql[at..], i - at, sql[i..]);
    SkippedStep(sql, at, i, end);
  }

  lemma SkippedByte(sql: string, at: nat, end: nat)
    requires at < |sql| && Skipped(sql, at, end) && IsTriviaByte(sql[at])
    ensures Skipped(sql, at + 1, end)
  {
    assert sql[at..][1..] == sql[at + 1..];
  }

  lemma SkippedFeed(sql: string, i: nat, end: nat)
    requires i < |sql| && sql[i] == '\n' && Skipped(sql, i + 1, end)
    ensures Skipped(sql, i, end)
  {
    assert sql[i..][1..] == sql[i + 1..];
  }

  lemma SkippedAll(sql: string, i: nat, end: nat)
    requires i == |sql| && (Skipped(sql, i, end) || end == |sql|)
    ensures end == |sql| && Skipped(sql, i, end)
  {
    assert sql[i..] == "";
  }

  /** The inner loop over a line comment. */
  method LineFeedAt(sql: string, from: nat) returns (i: nat)
    requires from <= |sql|
    ensures from <= i <= |sql| && (i < |sql| ==> sql[i] == '\n')
    ensures from + LineEnd(sql[from..]) == if i < |sql| then i + 1 else i
  {
    i := from;
    while i < |sql| && sql[i] != '\n'
      invariant from <= i <= |sql|
      invariant i + LineEnd(sql[i..]) == from + LineEnd(sql[from..])
    {
      assert sql[i..][1..] == sql[i + 1..];
      i := i + 1;
    }
  }

  /** The inner loop stops at the line feed that ends the comment, and that is white space itself. */
  lemma SkippedToFeed(sql: string, i: nat, next: nat, end: nat)
    requires i <= |sql| && next == (if i < |sql| then i + 1 else i) && (i < |sql| ==> sql[i] == '\n')
    requires Skipped(sql, next, end)
    ensures Skipped(sql, i, end)
  {
    if i < |sql| { SkippedFeed(sql, i, end); }
  }

  lemma SkippedCode(sql: string, at: nat, end: nat)
    requires at < |sql| && Skipped(sql, at, end)
    requires !IsTriviaByte(sql[at]) && OpenerLen(sql[at..]) == 0 && !Opens(sql[at..], '/', '*')
    ensures end == at
  {}

  method BlockCommentTurn(sql: string, at: nat, ghost end: nat) returns (i: nat)
    requires at < |sql| && Skipped(sql, at, end)
    requires !IsTriviaByte(sql[at]) && OpenerLen(sql[at..]) == 0 && Opens(sql[at..], '/', '*')
    ensures at < i && Skipped(sql, i, end)
  {
    i := SkipBlock(sql, at + 2);
    assert sql[at..][2..] == sql[at + 2..];
    SkippedBlock(sql, at, i, end);
  }

  /** One turn of the outer loop; `code` tells that it has met the statement. */
  method TriviaTurn(sql: string, at: nat, ghost end: nat) returns (i: nat, code: bool)
    requires at < |sql| && Skipped(sql, at, end)
    ensures i <= |sql|
    ensures if code then i == end else at < i && Skipped(sql, i, end)
  {
    if IsTriviaByte(sql[at]) {
      SkippedByte(sql, at, end);
      return at + 1, false;
    }
    var opener := OpenerLen(sql[at..]);
    if opener > 0 {
      i := LineFeedAt(sql, at + opener);
      ghost var next := at + opener + LineEnd(sql[at + opener..]);
      SkippedLine(sql, at, opener, next, end);
      SkippedToFeed(sql, i, next, end);
      return i, false;
    }
    if !Opens(sql[at..], '/', '*') {
      SkippedCode(sql, at, end);
      return at, true;
    }
    i := BlockCommentTurn(sql, at, end);
    return i, false;
  }

  method LeadingTriviaLength(sql: string) returns (n: nat)
    ensures n == Trivia(sql)
  {
    var i: nat := 0;
    assert sql[0..] == sql;
    ghost var end := Trivia(sql);
    while i < |sql|
      invariant i <= |sql| && Skipped(sql, i, end)
      decreases |sql| - i
    {
      var code;
      i, code := TriviaTurn(sql, i, end);
      if code { return i; }
    }
    SkippedAll(sql, i, end);
    return |sql|;
  }

  // ---------------------------------------------------------------- trivia and the split lexer

  /** White space or a comment to the split lexer. */
  predicate IsComment(t: Token) { t.kind == Space || t.kind == LineComment || t.kind == BlockComment }

  /** What the trivia scanner skips: the same, and a form feed, which is code to the split lexer. */
  predicate IsSkipped(t: Token) { IsComment(t) || (t.kind == Code && t.text == [FF]) }

  function SkippedLen(toks: seq<Token>): nat {
    if toks != [] && IsSkipped(toks[0]) then |toks[0].text| + SkippedLen(toks[1..]) else 0
  }

  /** The offset of the first byte that the split lexer takes for neither white space nor comment. */
  function CodeOffset(toks: seq<Token>): nat {
    if toks != [] && IsComment(toks[0]) then |toks[0].text| + CodeOffset(toks[1..]) else 0
  }

  lemma TriviaByteFirst(s: string)
    requires s != "" && IsTriviaByte(s[0])
    ensures First(s) == Ok(Token(if s[0] == FF then Code else Space, s[..1])) && Trivia(s) == 1 + Trivia(s[1..])
  {}

  lemma TriviaLineFirst(s: string)
    requires s != "" && !IsTriviaByte(s[0]) && OpenerLen(s) > 0
    ensures First(s).Ok? && First(s).value.kind == LineComment
    ensures var n := |First(s).value.text|; Trivia(s) == n + Trivia(s[n..])
  {
    TriviaComment(s, OpenerLen(s), LineEnd(s[OpenerLen(s)..]));
  }

  lemma TriviaBlockFirst(s: string)
    requires s != "" && !IsTriviaByte(s[0]) && OpenerLen(s) == 0 && Opens(s, '/', '*') && First(s).Ok?
    ensures First(s).value.kind == BlockComment
    ensures var n := |First(s).value.text|; Trivia(s) == n + Trivia(s[n..])
  {
    TriviaBlock(s, BlockLen(s));
  }

  lemma TriviaNoneFirst(s: string)
    requires s != "" && !IsTriviaByte(s[0]) && OpenerLen(s) == 0 && !Opens(s, '/', '*') && First(s).Ok?
    ensures Trivia(s) == 0 && !IsSkipped(First(s).value)
  {
    assert s[..1] == [s[0]];
  }

  lemma TriviaFirst(s: string)
    requires s != "" && First(s).Ok?
    ensures var t := First(s).value;
      Trivia(s) == if IsSkipped(t) then |t.text| + Trivia(s[|t.text|..]) else 0
  {
    if IsTriviaByte(s[0]) {
      TriviaByteFirst(s);
      assert s[..1] == [s[0]];
    } else if OpenerLen(s) > 0 {
      TriviaLineFirst(s);
    } else if Opens(s, '/', '*') {
      TriviaBlockFirst(s);
    } else {
      TriviaNoneFirst(s);
    }
  }

  lemma TriviaToken(t: Token, rest: string)
    requires t.text != "" && TokenAt(t, rest)
    ensures Trivia(t.text + rest) == if IsSkipped(t) then |t.text| + Trivia(rest) else 0
  {
    FirstComplete(t, rest);
    assert (t.text + rest)[|t.text|..] == rest;
    TriviaFirst(t.text + rest);
  }

  lemma {:induction false} TriviaChain(toks: seq<Token>)
    requires Chain(toks, "")
    ensures Trivia(Text(toks)) == SkippedLen(toks)
  {
    if toks != [] {
      assert Text(toks[1..]) + "" == Text(toks[1..]);
      TriviaToken(toks[0], Text(toks[1..]));
      TriviaChain(toks[1..]);
    }
  }

  lemma FirstOfText(toks: seq<Token>)
    requires Chain(toks, "") && toks != []
    ensures Text(toks) != "" && Text(toks)[0] == toks[0].text[0]
    ensures toks[0].kind == Code ==> |toks[0].text| == 1 && toks[0].text == [toks[0].text[0]]
    ensures toks[0].text[0] == FF ==> toks[0].kind == Code || toks[0].kind == Space
  {
    FirstByte(toks[0], Text(toks[1..]) + "");
    assert |toks[0].text| == 1 ==> toks[0].text == [toks[0].text[0]];
  }

  lemma {:induction false} SkippedIsCodeOffset(toks: seq<Token>)
    requires Chain(toks, "")
    ensures CodeOffset(toks) <= |Text(toks)|
    ensures SkippedLen(toks) == CodeOffset(toks) <==>
      !(CodeOffset(toks) < |Text(toks)| && Text(toks)[CodeOffset(toks)] == FF)
  {
    if toks != [] {
      FirstOfText(toks);
      if IsComment(toks[0]) { SkippedIsCodeOffset(toks[1..]); }
    }
  }

  /** On every text that lexes, the trivia scanner stops at the first code byte of the split lexer,
      except exactly when that byte is a form feed. */
  lemma TriviaAgrees(s: string)
    requires Lex(s).Ok?
    ensures var n := CodeOffset(Lex(s).value);
      n <= |s| && (Trivia(s) == n <==> !(n < |s| && s[n] == FF))
  {
    LexIsChain(s);
    TriviaChain(Lex(s).value);
    SkippedIsCodeOffset(Lex(s).value);
  }

  lemma FormFeedHides(w: string, s: string)
    requires s == [FF] + w && AllPlain(s)
    ensures Lex(s) == Ok(Singles(s)) && Trivia(s) > 0 && CodeOffset(Singles(s)) == 0
  {
    PlainChain(s, "");
    ChainIsLex(Singles(s));
    assert Singles(s)[0].kind == Code && IsTriviaByte(s[0]);
  }

  /** The input on which the two scanners part: a form feed in front of the code. */
  lemma FormFeedHidesCode() returns (s: string)
    ensures s == [FF] + "S" && Lex(s).Ok? && Trivia(s) != CodeOffset(Lex(s).value)
  {
    s := [FF] + "S";
    FormFeedHides("S", s);
  }

  lemma MiddleHasNo(a: string, x: string, b: string, c: char)
    requires c !in a + x + b
    ensures c !in x
  {
    assert forall k :: 0 <= k < |x| ==> x[k] == (a + x + b)[|a| + k];
  }

  lemma OutputHasNoFeed(s: string, x: string)
    requires Split(s).Ok? && x in Split(s).value && FF !in s && VT !in s
    ensures FF !in x
  {
    var p := OutputPiece(s, x);
    var a, b := TrimParts(Text(p));
    MiddleHasNo(a, x, b, FF);
  }

  lemma OutputCodeOffset(s: string, x: string)
    requires Split(s).Ok? && x in Split(s).value && FF !in s && VT !in s
    ensures Lex(x).Ok? && CodeOffset(Lex(x).value) < |x|
  {
    SplitAgain(s, x);
    LexIsChain(x);
    LexText(x);
    CodeOffsetFinds(Lex(x).value);
  }

  /** On an output of splitting a text without form feeds and vertical tabs, the two scanners agree. */
  lemma TriviaAgreesOnOutput(s: string, x: string)
    requires Split(s).Ok? && x in Split(s).value && FF !in s && VT !in s
    ensures Lex(x).Ok? && Trivia(x) == CodeOffset(Lex(x).value) < |x|
  {
    OutputCodeOffset(s, x);
    OutputHasNoFeed(s, x);
    TriviaAgrees(x);
  }

  lemma {:induction false} CodeOffsetFinds(toks: seq<Token>)
    requires Chain(toks, "") && HasCode(toks)
    ensures CodeOffset(toks) < |Text(toks)|
  {
    if IsComment(toks[0]) { CodeOffsetFinds(toks[1..]); }
  }
}
