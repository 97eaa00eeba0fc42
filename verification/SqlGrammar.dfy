/** The declarative grammar of SQL tokens, and the proof that the lexer reads exactly the tokens of the grammar. */
module SqlGrammar {
  import opened SqlText
  import opened SqlBytes
  import opened SqlLexer

  /** The inside of a block comment: plain bytes and nested comments. */
  datatype Body = End | Byte(c: char, tail: Body) | Nest(inner: Body, tail: Body)

  /** The text of a comment body and of the close that ends it. */
  ghost function Closed(b: Body): (r: string)
    ensures |r| >= 2
  {
    match b
    case End => "*/"
    case Byte(c, tail) => [c] + Closed(tail)
    case Nest(inner, tail) => "/*" + Closed(inner) + Closed(tail)
  }

  /** No plain byte of `b` starts a comment delimiter. */
  ghost predicate Clean(b: Body) {
    match b
    case End => true
    case Byte(c, tail) =>
      var s := [c] + Closed(tail);
      !Opens(s, '/', '*') && !Opens(s, '*', '/') && Clean(tail)
    case Nest(inner, tail) => Clean(inner) && Clean(tail)
  }

  /** The inside of a quote: escape pairs, doubled quotes and other bytes. */
  ghost predicate QuoteBody(s: string, q: char) {
    if s == "" then true
    else if s[0] == '\\' then |s| >= 2 && QuoteBody(s[2..], q)
    else if s[0] == q then |s| >= 2 && s[1] == q && QuoteBody(s[2..], q)
    else QuoteBody(s[1..], q)
  }

  ghost predicate StartsLineComment(s: string) {
    Opens(s, '-', '-') || Opens(s, '/', '/') || Opens(s, '#', '!') || Opens(s, '#', ' ') || Opens(s, '#', '\t')
  }

  ghost predicate IsQuotedText(s: string, q: char) {
    |s| >= 2 && QuoteMark(q) && s[0] == q && s[|s| - 1] == q && QuoteBody(s[1..|s| - 1], q)
  }

  ghost predicate IsHeredocText(s: string, tag: string) {
    && IsTag(tag) && |s| >= 2 * |tag| && tag <= s && Has(s, |s| - |tag|, tag)
    && forall k :: |tag| <= k < |s| - |tag| ==> !Has(s, k, tag)
  }

  ghost predicate IsBlockText(s: string, b: Body) {
    Opens(s, '/', '*') && s[2..] == Closed(b) && Clean(b)
  }

  ghost predicate StartsHeredoc(s: string) {
    exists tag :: IsTag(tag) && tag <= s
  }

  /** `t` is a token of the language when the text `rest` follows it. */
  ghost predicate TokenAt(t: Token, rest: string) {
    var s := t.text;
    match t.kind
    case Semicolon => s == ";"
    case Space => |s| == 1 && SpaceByte(s[0])
    case Code =>
      && |s| == 1 && !SpaceByte(s[0]) && !QuoteMark(s[0]) && s[0] != ';'
      && !StartsLineComment(s + rest) && !Opens(s + rest, '/', '*') && !StartsHeredoc(s + rest)
    case Quoted => (exists q :: IsQuotedText(s, q)) && (rest != "" ==> rest[0] != s[0])
    case Heredoc => exists tag :: IsHeredocText(s, tag)
    case BlockComment => exists b :: IsBlockText(s, b)
    case LineComment =>
      && StartsLineComment(s + rest) && |s| >= OpenerLen(s + rest)
      && (forall k :: 0 <= k < |s| - 1 ==> s[k] != '\n')
      && (rest != "" ==> s != "" && s[|s| - 1] == '\n')
  }

  /** `toks` cuts `s` into tokens of the language. */
  ghost predicate Tokenization(s: string, toks: seq<Token>) {
    if toks == [] then s == ""
    else
      var t := toks[0];
      && t.text != "" && t.text <= s
      && TokenAt(t, s[|t.text|..])
      && Tokenization(s[|t.text|..], toks[1..])
  }

  // ---------------------------------------------------------------- scanner and grammar agree

  lemma {:induction false} QuoteEndSound(s: string, q: char)
    requires q != '\\' && QuoteEnd(s, q).Some?
    ensures QuoteBody(s[..QuoteEnd(s, q).value - 1], q)
    ensures var n := QuoteEnd(s, q).value; n < |s| ==> s[n] != q
  {
    var n := QuoteEnd(s, q).value;
    var k := if s[0] == '\\' then 2 else if s[0] != q then 1 else if |s| >= 2 && s[1] == q then 2 else 0;
    if k > 0 {
      QuoteEndSound(s[k..], q);
      assert s[..n - 1][k..] == s[k..][..n - 1 - k];
    }
  }

  lemma {:induction false} QuoteEndLast(s: string, q: char)
    requires q != '\\' && QuoteEnd(s, q).Some?
    ensures s[QuoteEnd(s, q).value - 1] == q
  {
    var k := if s[0] == '\\' then 2 else if s[0] != q then 1 else if |s| >= 2 && s[1] == q then 2 else 0;
    if k > 0 { QuoteEndLast(s[k..], q); }
  }

  lemma {:induction false} QuoteEndComplete(body: string, q: char, rest: string)
    requires q != '\\' && QuoteBody(body, q) && (rest != "" ==> rest[0] != q)
    ensures QuoteEnd(body + [q] + rest, q) == Some(|body| + 1)
  {
    var s := body + [q] + rest;
    if body != "" {
      var k := if body[0] == '\\' || body[0] == q then 2 else 1;
      QuoteEndComplete(body[k..], q, rest);
      assert s[k..] == body[k..] + [q] + rest;
    }
  }

  lemma HasSlice(s: string, i: nat, k: nat, tag: string)
    requires i <= |s|
    ensures Has(s[i..], k, tag) <==> Has(s, i + k, tag)
  {
    if i + k + |tag| <= |s| {
      assert s[i..][k..k + |tag|] == s[i + k..i + k + |tag|];
    }
  }

  lemma HasPrefix(s: string, rest: string, k: nat, tag: string)
    requires k + |tag| <= |s|
    ensures Has(s + rest, k, tag) <==> Has(s, k, tag)
  {
    assert (s + rest)[k..k + |tag|] == s[k..k + |tag|];
  }

  /** `r` is the end of the first occurrence of the delimiter, or nothing when there is none. */
  ghost predicate FirstEnd(s: string, tag: string, r: Option<nat>) {
    match r
    case None => forall k: nat :: !Has(s, k, tag)
    case Some(n) => n >= |tag| && Has(s, n - |tag|, tag) && forall k: nat :: k < n - |tag| ==> !Has(s, k, tag)
  }

  lemma FirstEndStep(s: string, tag: string, r: Option<nat>)
    requires s != "" && !Has(s, 0, tag) && FirstEnd(s[1..], tag, r)
    ensures FirstEnd(s, tag, After(1, r))
  {
    forall k: nat
      ensures k > 0 ==> (Has(s, k, tag) <==> Has(s[1..], k - 1, tag))
    {
      if k > 0 { HasSlice(s, 1, k - 1, tag); }
    }
  }

  /** The scan finds the first occurrence of the delimiter, and fails when there is none. */
  lemma {:induction false} HeredocEndSpec(s: string, tag: string)
    requires tag != ""
    ensures FirstEnd(s, tag, HeredocEnd(s, tag))
  {
    if s != "" && !Has(s, 0, tag) {
      HeredocEndSpec(s[1..], tag);
      FirstEndStep(s, tag, HeredocEnd(s[1..], tag));
    }
  }

  lemma HeredocEndUnique(s: string, tag: string, n: nat)
    requires tag != "" && Has(s, n, tag)
    requires forall k: nat :: k < n ==> !Has(s, k, tag)
    ensures HeredocEnd(s, tag) == Some(n + |tag|)
  {
    HeredocEndSpec(s, tag);
    var m := HeredocEnd(s, tag).value - |tag|;
    assert !(n < m) && !(m < n);
  }

  lemma TagUnique(s: string, tag: string)
    requires IsTag(tag) && tag <= s
    ensures HeredocTag(s) == tag
  {
    var w := WordLen(s[1..]);
    assert forall k :: 0 <= k < |s| - 1 ==> s[1..][k] == s[k + 1];
    assert forall k :: 0 <= k < |tag| ==> s[k] == tag[k];
    assert s[1..][|tag| - 2] == '$';
    assert forall k :: 0 <= k < |tag| - 2 ==> IsWordByte(s[1..][k]);
  }

  /** A scan that leaves depth `d` has read one clean comment body. */
  lemma {:induction false} BlockEndSound(s: string, d: nat) returns (b: Body, rest: string)
    requires d > 0 && BlockEnd(s, d).Some?
    ensures Clean(b) && s == Closed(b) + rest
    ensures d > 1 ==> BlockEnd(rest, d - 1).Some?
    decreases |s|
  {
    if Opens(s, '/', '*') {
      var inner, more := BlockEndSound(s[2..], d + 1);
      var tail;
      tail, rest := BlockEndSound(more, d);
      b := Nest(inner, tail);
      NestText(s, inner, tail, rest);
    } else if Opens(s, '*', '/') {
      b, rest := End, s[2..];
    } else {
      var tail;
      tail, rest := BlockEndSound(s[1..], d);
      b := Byte(s[0], tail);
      ByteText(s, tail, rest);
    }
  }

  lemma NestText(s: string, inner: Body, tail: Body, rest: string)
    requires Opens(s, '/', '*') && s[2..] == Closed(inner) + (Closed(tail) + rest)
    ensures s == Closed(Nest(inner, tail)) + rest
  {
    FourParts("/*", Closed(inner), Closed(tail), rest);
    OpenerOff(s);
  }

  lemma OpenerOff(s: string)
    requires Opens(s, '/', '*')
    ensures s == "/*" + s[2..]
  {}

  lemma HeadAndTail(s: string)
    requires s != ""
    ensures s == [s[0]] + s[1..] && (|s| > 1 ==> s[1] == s[1..][0])
  {}

  lemma ByteText(s: string, tail: Body, rest: string)
    requires s != "" && !Opens(s, '/', '*') && !Opens(s, '*', '/')
    requires s[1..] == Closed(tail) + rest && Clean(tail)
    ensures s == Closed(Byte(s[0], tail)) + rest && Clean(Byte(s[0], tail))
  {
    HeadAndTail(s);
    TextBehind([s[0]], Closed(tail), rest);
    ByteIsClean(s, [s[0]] + Closed(tail));
  }

  /** Whether a delimiter opens is known from two bytes. */
  lemma ByteIsClean(s: string, u: string)
    requires |u| >= 2 && |s| >= 2 && u[0] == s[0] && u[1] == s[1] && !Opens(s, '/', '*') && !Opens(s, '*', '/')
    ensures !Opens(u, '/', '*') && !Opens(u, '*', '/')
  {}

  /** The scan that enters the text at depth `d` leaves it behind its close, at the depth outside. */
  ghost predicate Leaves(text: string, rest: string, d: nat)
    requires d > 0
  {
    BlockEnd(text + rest, d) == After(|text|, if d == 1 then Some(0) else BlockEnd(rest, d - 1))
  }

  lemma {:induction false} BlockEndComplete(b: Body, rest: string, d: nat)
    requires d > 0 && Clean(b)
    ensures Leaves(Closed(b), rest, d)
    decreases b
  {
    match b {
      case End => CloseLeaves(rest, d);
      case Byte(c, tail) =>
        BlockEndComplete(tail, rest, d);
        ByteLeaves(c, Closed(tail), rest, d);
      case Nest(inner, tail) =>
        BlockEndComplete(tail, rest, d);
        BlockEndComplete(inner, Closed(tail) + rest, d + 1);
        NestLeaves(Closed(inner), Closed(tail), rest, d);
    }
  }

  lemma CloseLeaves(rest: string, d: nat)
    requires d > 0
    ensures Leaves("*/", rest, d)
  {
    assert ("*/" + rest)[2..] == rest;
  }

  lemma ByteScan(s: string, more: string, d: nat)
    requires d > 0 && s != "" && s[1..] == more && !Opens(s, '/', '*') && !Opens(s, '*', '/')
    ensures BlockEnd(s, d) == After(1, BlockEnd(more, d))
  {}

  lemma ByteLeaves(c: char, tail: string, rest: string, d: nat)
    requires d > 0 && |tail| >= 2 && Leaves(tail, rest, d)
    requires !Opens([c] + tail, '/', '*') && !Opens([c] + tail, '*', '/')
    ensures Leaves([c] + tail, rest, d)
  {
    var more := tail + rest;
    TextBehind([c], tail, rest);
    ByteIsClean([c] + tail, [c] + more);
    ByteScan([c] + more, more, d);
  }

  lemma NestLeaves(inner: string, tail: string, rest: string, d: nat)
    requires d > 0 && Leaves(tail, rest, d) && Leaves(inner, tail + rest, d + 1)
    ensures Leaves("/*" + inner + tail, rest, d)
  {
    FourParts("/*", inner, tail, rest);
    OpenerOn(inner + (tail + rest));
  }

  lemma OpenerOn(rest: string)
    ensures Opens("/*" + rest, '/', '*') && ("/*" + rest)[2..] == rest
  {}

  /** `line` is a whole line: it ends with its only line feed, or it has none and nothing follows. */
  lemma {:induction false} LineEndComplete(line: string, rest: string)
    requires forall k :: 0 <= k < |line| - 1 ==> line[k] != '\n'
    requires rest != "" ==> line != "" && line[|line| - 1] == '\n'
    ensures LineEnd(line + rest) == |line|
  {
    if |line| > 1 {
      LineEndComplete(line[1..], rest);
      assert (line + rest)[1..] == line[1..] + rest;
    } else if line == "" {
      assert line + rest == "";
    } else {
      assert (line + rest)[1..] == rest;
    }
  }

  lemma LineCommentSound(s: string)
    requires s != "" && OpenerLen(s) > 0
    ensures var t := First(s).value; TokenAt(t, s[|t.text|..])
  {
    var o := OpenerLen(s);
    var n := o + LineEnd(s[o..]);
    assert s[..n] + s[n..] == s;
    OneLine(s, o, n, s[o..]);
  }

  lemma OneLine(s: string, o: nat, n: nat, line: string)
    requires s != "" && 0 < o == OpenerLen(s) && line == s[o..] && n == o + LineEnd(line)
    ensures forall k :: 0 <= k < n - 1 ==> s[..n][k] != '\n'
    ensures n < |s| ==> s[..n] != "" && s[..n][n - 1] == '\n'
  {
    forall k | 0 <= k < n - 1
      ensures s[..n][k] != '\n'
    {
      if k >= o { assert s[..n][k] == line[k - o]; }
    }
    if n < |s| { assert s[..n][n - 1] == line[n - 1 - o]; }
  }

  lemma BlockCommentSound(s: string)
    requires s != "" && First(s).Ok? && First(s).value.kind == BlockComment
    ensures exists b :: IsBlockText(First(s).value.text, b)
  {
    var b, rest := BlockEndSound(s[2..], 1);
    BlockEndComplete(b, rest, 1);
    assert First(s).value.text[2..] == s[2..][..|Closed(b)|] == Closed(b);
    assert IsBlockText(First(s).value.text, b);
  }

  /** Offsets inside a heredoc token, counted from its start or from behind its first delimiter. */
  lemma HeredocOffsets(text: string, tag: string, rest: string)
    requires |tag| <= |text|
    ensures forall k: nat :: |tag| <= k <= |text| - |tag| ==>
      (Has(text, k, tag) <==> Has((text + rest)[|tag|..], k - |tag|, tag))
  {
    forall k: nat | |tag| <= k <= |text| - |tag|
      ensures Has(text, k, tag) <==> Has((text + rest)[|tag|..], k - |tag|, tag)
    {
      HasSlice(text + rest, |tag|, k - |tag|, tag);
      HasPrefix(text, rest, k, tag);
    }
  }

  lemma HeredocTextSound(text: string, tag: string, rest: string)
    requires IsTag(tag) && tag <= text
    requires HeredocEnd((text + rest)[|tag|..], tag) == Some(|text| - |tag|)
    ensures IsHeredocText(text, tag)
  {
    HeredocEndSpec((text + rest)[|tag|..], tag);
    HeredocInText(text, tag, rest, (text + rest)[|tag|..]);
  }

  lemma HeredocInText(text: string, tag: string, rest: string, inside: string)
    requires IsTag(tag) && tag <= text && inside == (text + rest)[|tag|..]
    requires FirstEnd(inside, tag, Some(|text| - |tag|))
    ensures IsHeredocText(text, tag)
  {
    HeredocOffsets(text, tag, rest);
    assert Has(text, |text| - |tag|, tag);
  }

  lemma HeredocTokenSound(s: string, tag: string)
    requires IsTag(tag) && tag <= s && HeredocToken(s, tag).Ok?
    ensures IsHeredocText(HeredocToken(s, tag).value.text, tag)
  {
    var n := |tag| + HeredocEnd(s[|tag|..], tag).value;
    CutInTwo(s, n, tag);
    HeredocTextSound(s[..n], tag, s[n..]);
  }

  lemma CutInTwo(s: string, n: nat, tag: string)
    requires tag <= s && |tag| <= n <= |s|
    ensures s[..n] + s[n..] == s && tag <= s[..n]
  {}

  lemma HeredocSound(s: string)
    requires s != "" && First(s).Ok? && First(s).value.kind == Heredoc
    ensures IsHeredocText(First(s).value.text, HeredocTag(s))
  {
    HeredocTokenSound(s, HeredocTag(s));
  }

  lemma HeredocBehind(text: string, tag: string, rest: string, behind: string)
    requires IsHeredocText(text, tag) && behind == (text + rest)[|tag|..]
    ensures HeredocEnd(behind, tag) == Some(|text| - |tag|)
  {
    var n := |text| - 2 * |tag|;
    HeredocOffsets(text, tag, rest);
    forall k: nat | k <= n
      ensures Has(behind, k, tag) <==> Has(text, |tag| + k, tag)
    {}
    HeredocEndUnique(behind, tag, n);
  }

  lemma HeredocComplete(t: Token, rest: string)
    requires t.kind == Heredoc && TokenAt(t, rest)
    ensures First(t.text + rest) == Ok(t)
  {
    var tag :| IsHeredocText(t.text, tag);
    HeredocBehind(t.text, tag, rest, (t.text + rest)[|tag|..]);
    HeredocFirst(t.text, tag, rest);
  }

  lemma HeredocFirst(text: string, tag: string, rest: string)
    requires IsTag(tag) && tag <= text
    requires HeredocEnd((text + rest)[|tag|..], tag) == Some(|text| - |tag|)
    ensures First(text + rest) == Ok(Token(Heredoc, text))
  {
    var s := text + rest;
    TagUnique(s, tag);
    assert s[..|text|] == text;
  }

  lemma QuotedSound(s: string)
    requires s != "" && First(s).Ok? && First(s).value.kind == Quoted
    ensures var t := First(s).value; TokenAt(t, s[|t.text|..])
  {
    var text := First(s).value.text;
    QuoteEndSound(s[1..], s[0]);
    var n := QuoteEnd(s[1..], s[0]).value;
    assert text[1..|text| - 1] == s[1..][..n - 1];
    QuoteEndLast(s[1..], s[0]);
    assert IsQuotedText(text, s[0]);
  }

  lemma CodeSound(s: string)
    requires s != "" && First(s).Ok? && First(s).value.kind == Code
    ensures var t := First(s).value; TokenAt(t, s[|t.text|..])
  {
    assert First(s).value.text + s[1..] == s;
    if StartsHeredoc(s) {
      var tag :| IsTag(tag) && tag <= s;
      TagUnique(s, tag);
    }
  }

  lemma FirstSound(s: string)
    requires s != "" && First(s).Ok?
    ensures var t := First(s).value; TokenAt(t, s[|t.text|..])
  {
    match First(s).value.kind {
      case LineComment => LineCommentSound(s);
      case BlockComment => BlockCommentSound(s);
      case Heredoc => HeredocSound(s);
      case Quoted => QuotedSound(s);
      case Code => CodeSound(s);
      case Space =>
      case Semicolon =>
    }
  }

  lemma OpenerNotNewline(s: string)
    ensures forall k :: 0 <= k < OpenerLen(s) ==> s[k] != '\n'
  {}

  lemma FrontPart(a: string, b: string, o: nat)
    requires o <= |a|
    ensures (a + b)[o..] == a[o..] + b && (a + b)[..|a|] == a
  {}

  lemma LineCommentComplete(t: Token, rest: string)
    requires t.text != "" && t.kind == LineComment && TokenAt(t, rest)
    ensures First(t.text + rest) == Ok(t)
  {
    var s := t.text + rest;
    var o := OpenerLen(s);
    FrontPart(t.text, rest, o);
    if rest != "" { LineFeedLast(s, t.text, rest, o); }
    LineEndComplete(t.text[o..], rest);
  }

  /** The line feed that ends a comment is not in its opener. */
  lemma LineFeedLast(s: string, text: string, rest: string, o: nat)
    requires s == text + rest && o == OpenerLen(s) <= |text| && text != "" && text[|text| - 1] == '\n'
    ensures o < |text| && text[o..][|text[o..]| - 1] == '\n'
  {
    OpenerNotNewline(s);
    assert s[|text| - 1] == text[|text| - 1];
  }

  lemma BlockCommentComplete(t: Token, rest: string)
    requires t.kind == BlockComment && TokenAt(t, rest)
    ensures First(t.text + rest) == Ok(t)
  {
    var s := t.text + rest;
    var b :| IsBlockText(t.text, b);
    BlockEndComplete(b, rest, 1);
    assert s[2..] == Closed(b) + rest;
    assert s[..|t.text|] == t.text;
  }

  lemma FirstQuote(s: string)
    requires s != "" && IsQuote(s[0])
    ensures First(s) == match QuoteEnd(s[1..], s[0])
                        case None => Err(UnterminatedQuote)
                        case Some(n) => Ok(Token(Quoted, s[..1 + n]))
  {}

  lemma QuotedText(s: string, body: string, rest: string)
    requires s != "" && IsQuote(s[0]) && QuoteBody(body, s[0]) && (rest != "" ==> rest[0] != s[0])
    requires s[1..] == body + [s[0]] + rest
    ensures First(s) == Ok(Token(Quoted, s[..|body| + 2]))
  {
    QuoteEndComplete(body, s[0], rest);
    FirstQuote(s);
  }

  lemma QuotedComplete(t: Token, rest: string)
    requires t.kind == Quoted && TokenAt(t, rest)
    ensures First(t.text + rest) == Ok(t)
  {
    var q :| IsQuotedText(t.text, q);
    var body := t.text[1..|t.text| - 1];
    assert (t.text + rest)[1..] == body + [q] + rest by {
      assert t.text[1..] == body + [q];
      assert (t.text + rest)[1..] == t.text[1..] + rest;
    }
    assert (t.text + rest)[..|t.text|] == t.text;
    QuotedText(t.text + rest, body, rest);
  }

  lemma FirstComplete(t: Token, rest: string)
    requires t.text != "" && TokenAt(t, rest)
    ensures First(t.text + rest) == Ok(t)
  {
    match t.kind {
      case LineComment => LineCommentComplete(t, rest);
      case BlockComment => BlockCommentComplete(t, rest);
      case Heredoc => HeredocComplete(t, rest);
      case Quoted => QuotedComplete(t, rest);
      case Code => assert !StartsHeredoc(t.text + rest);
      case Space =>
      case Semicolon =>
    }
  }

  /** The scanner reads exactly the token that the grammar allows at the head of a text. */
  lemma FirstIsGrammar(s: string, t: Token)
    requires s != "" && t.text != ""
    ensures First(s) == Ok(t) <==> t.text <= s && TokenAt(t, s[|t.text|..])
  {
    if t.text <= s {
      assert t.text + s[|t.text|..] == s;
      if TokenAt(t, s[|t.text|..]) { FirstComplete(t, s[|t.text|..]); }
      if First(s) == Ok(t) { FirstSound(s); }
    }
  }

  /** Lexing succeeds with `toks` exactly when the grammar cuts the text into `toks`. */
  lemma {:induction false} LexIsGrammar(s: string, toks: seq<Token>)
    ensures Lex(s) == Ok(toks) <==> Tokenization(s, toks)
    decreases |s|
  {
    if s != "" && toks != [] {
      var t := toks[0];
      if t.text != "" {
        FirstIsGrammar(s, t);
        if t.text <= s {
          LexIsGrammar(s[|t.text|..], toks[1..]);
          assert [t] + toks[1..] == toks;
        }
      }
      if Lex(s) == Ok(toks) {
        var u := First(s).value;
        var more := Lex(s[|u.text|..]).value;
        assert ([u] + more)[0] == u && ([u] + more)[1..] == more;
      }
    }
  }
}
