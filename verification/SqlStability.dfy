/** Re-lexing text that was lexed before: which tokens stay when text behind them is cut off or appended. */
module SqlStability {
  import opened SqlText
  import opened SqlLexer
  import opened SqlGrammar

  // ---------------------------------------------------------------- one token and what follows it

  /** A token that stays the same whatever text is put behind it. */
  predicate Sealed(t: Token) {
    match t.kind
    case LineComment => t.text != "" && t.text[|t.text| - 1] == '\n'
    case Code => t.text != "" && t.text[0] != '-' && t.text[0] != '/' && t.text[0] != '#' && t.text[0] != '$'
    case Quoted => false
    case _ => true
  }

  /** A first byte that no lookahead of the scanner reads into the token before it. */
  predicate Inert(c: char) { IsBlank(c) || c == ';' }

  /** A line comment that the end of the text cut short. */
  predicate IsOpen(t: Token) {
    t.kind == LineComment && (t.text == "" || t.text[|t.text| - 1] != '\n')
  }

  predicate IsHash(t: Token) { t.kind == Code && t.text == "#" }

  lemma LineCommentTwo(t: Token, rest: string)
    requires t.text != "" && t.kind == LineComment && TokenAt(t, rest)
    ensures |t.text| >= 2
  {
    if rest == "" { assert t.text + rest == t.text; }
  }

  lemma SealedToken(t: Token, rest: string, b: string)
    requires t.text != "" && TokenAt(t, rest) && Sealed(t)
    ensures TokenAt(t, rest + b)
  {
    var s, u := t.text + rest, t.text + (rest + b);
    if t.kind == LineComment {
      LineCommentTwo(t, rest);
      assert s[0] == u[0] && s[1] == u[1];
    } else if t.kind == Code {
      assert u[0] == s[0];
      assert forall tag: string :: tag != "" && tag <= u ==> tag[0] == u[0];
    }
  }

  lemma HeredocInPrefix(s: string, u: string)
    requires s <= u
    ensures StartsHeredoc(s) ==> StartsHeredoc(u)
  {
    if StartsHeredoc(s) {
      var tag :| IsTag(tag) && tag <= s;
      assert tag <= u;
    }
  }

  /** What follows a token may be cut anywhere behind the token. */
  lemma CutBehind(t: Token, rest: string, b: string)
    requires t.text != "" && TokenAt(t, rest + b)
    ensures TokenAt(t, rest)
  {
    var s, u := t.text + rest, t.text + (rest + b);
    assert u == s + b;
    if t.kind == LineComment {
      LineCommentTwo(t, rest + b);
      assert s[0] == u[0] && s[1] == u[1];
    } else if t.kind == Code {
      HeredocInPrefix(s, u);
      assert |s| >= 2 ==> s[0] == u[0] && s[1] == u[1];
    } else if t.kind == Quoted {
      assert rest != "" ==> (rest + b)[0] == rest[0];
    }
  }

  /** Text with an inert first byte may be put behind a token that is not open. */
  lemma ExtendBehind(t: Token, rest: string, b: string)
    requires t.text != "" && TokenAt(t, rest)
    requires b != "" && Inert(b[0]) && !IsOpen(t)
    requires !(IsHash(t) && rest == "" && (b[0] == ' ' || b[0] == '\t'))
    ensures TokenAt(t, rest + b)
  {
    if Sealed(t) {
      SealedToken(t, rest, b);
    } else if t.kind == Code {
      ExtendCode(t, rest, b);
    } else {
      assert t.kind == Quoted;
      assert (rest + b)[0] == if rest == "" then b[0] else rest[0];
    }
  }

  lemma ExtendCode(t: Token, rest: string, b: string)
    requires t.kind == Code && t.text != "" && TokenAt(t, rest)
    requires b != "" && Inert(b[0])
    requires !(IsHash(t) && rest == "" && (b[0] == ' ' || b[0] == '\t'))
    ensures TokenAt(t, rest + b)
  {
    var s, u := t.text + rest, t.text + (rest + b);
    assert u == s + b;
    assert IsHash(t) <==> t.text[0] == '#';
    assert u[0] == s[0] && u[1] == if rest == "" then b[0] else s[1];
    assert u[|s|] == b[0];
    assert forall tag :: IsTag(tag) && tag <= u ==> (|s| < |tag| ==> tag[|s|] == u[|s|]) && (|tag| <= |s| ==> tag <= s);
  }

  /** Text behind an open line comment continues it up to the next line feed. */
  lemma ExtendOpen(t: Token, b: string)
    requires t.text != "" && TokenAt(t, "") && IsOpen(t)
    ensures TokenAt(Token(LineComment, t.text + b[..LineEnd(b)]), b[LineEnd(b)..])
  {
    var n := LineEnd(b);
    var s, u := t.text + "", (t.text + b[..n]) + b[n..];
    assert u == t.text + b && s == t.text;
    LineCommentTwo(t, "");
    assert u[0] == s[0] && u[1] == s[1];
    forall k | 0 <= k < |t.text| + n - 1
      ensures (t.text + b[..n])[k] != '\n'
    {
      if k >= |t.text| { assert (t.text + b[..n])[k] == b[k - |t.text|]; }
    }
  }

  // ---------------------------------------------------------------- chains of tokens

  /** `toks` are the tokens at the head of their own text when `rest` follows it. */
  ghost predicate Chain(toks: seq<Token>, rest: string) {
    toks == [] ||
    (toks[0].text != "" && TokenAt(toks[0], Text(toks[1..]) + rest) && Chain(toks[1..], rest))
  }

  lemma ChainOfOne(t: Token, rest: string)
    requires t.text != "" && TokenAt(t, rest)
    ensures Chain([t], rest) && Text([t]) == t.text
  {
    assert [t][1..] == [] && Text([]) + rest == rest;
  }

  lemma ChainInFront(t: Token, toks: seq<Token>)
    requires t.text != "" && TokenAt(t, Text(toks)) && Chain(toks, "")
    ensures Chain([t] + toks, "") && Text([t] + toks) == t.text + Text(toks)
  {
    assert ([t] + toks)[1..] == toks && Text(toks) + "" == Text(toks);
  }

  /** The tokens of a lexed text are a chain that spells the text. */
  lemma {:induction false} LexIsChain(s: string)
    requires Lex(s).Ok?
    ensures Chain(Lex(s).value, "") && Text(Lex(s).value) == s
    decreases |s|
  {
    if s != "" {
      var t := First(s).value;
      FirstSound(s);
      LexIsChain(s[|t.text|..]);
      ChainInFront(t, Lex(s[|t.text|..]).value);
    }
  }

  /** A chain is what the lexer reads, whatever it reads behind it. */
  lemma LexStep(t: Token, rest: string)
    requires t.text != "" && TokenAt(t, rest)
    ensures Lex(t.text + rest) == Then([t], Lex(rest))
  {
    FirstComplete(t, rest);
    assert (t.text + rest)[|t.text|..] == rest;
  }

  lemma LexCons(t: Token, more: seq<Token>, tail: string, r: Result<seq<Token>>)
    requires t.text != "" && TokenAt(t, tail) && Lex(tail) == Then(more, r)
    ensures Lex(t.text + tail) == Then([t] + more, r)
  {
    LexStep(t, tail);
    ThenThen([t], more, r);
  }

  lemma LexChainStep(t: Token, more: seq<Token>, text: string, rest: string, r: Result<seq<Token>>)
    requires t.text != "" && TokenAt(t, text + rest) && Lex(text + rest) == Then(more, r)
    ensures Lex((t.text + text) + rest) == Then([t] + more, r)
  {
    LexCons(t, more, text + rest, r);
    TextBehind(t.text, text, rest);
  }

  lemma {:induction false} ChainLex(toks: seq<Token>, rest: string)
    requires Chain(toks, rest)
    ensures Lex(Text(toks) + rest) == Then(toks, Lex(rest))
  {
    if toks == [] {
      assert "" + rest == rest;
      ThenNothing(Lex(rest));
    } else {
      ChainLex(toks[1..], rest);
      LexChainStep(toks[0], toks[1..], Text(toks[1..]), rest, Lex(rest));
      assert [toks[0]] + toks[1..] == toks;
    }
  }

  lemma ThenNothing(r: Result<seq<Token>>)
    ensures Then([], r) == r
  {
    if r.Ok? { assert [] + r.value == r.value; }
  }

  lemma ThenThen(a: seq<Token>, b: seq<Token>, r: Result<seq<Token>>)
    ensures Then(a, Then(b, r)) == Then(a + b, r)
  {
    if r.Ok? { assert a + (b + r.value) == (a + b) + r.value; }
  }

  lemma ChainIsLex(toks: seq<Token>)
    requires Chain(toks, "")
    ensures Lex(Text(toks)) == Ok(toks)
  {
    ChainLex(toks, "");
    assert Text(toks) + "" == Text(toks);
    assert toks + [] == toks;
  }

  lemma {:induction false} TextAppend(a: seq<Token>, b: seq<Token>)
    ensures Text(a + b) == Text(a) + Text(b)
  {
    if a == [] {
      assert a + b == b;
    } else {
      assert (a + b)[0] == a[0] && (a + b)[1..] == a[1..] + b;
      TextAppend(a[1..], b);
    }
  }

  /** A chain may be cut in two, and two chains that fit may be joined. */
  lemma {:induction false} ChainAppend(a: seq<Token>, b: seq<Token>, rest: string)
    ensures Chain(a + b, rest) <==> Chain(a, Text(b) + rest) && Chain(b, rest)
  {
    if a == [] {
      assert a + b == b;
    } else {
      assert (a + b)[0] == a[0] && (a + b)[1..] == a[1..] + b;
      ChainAppend(a[1..], b, rest);
      TextAppend(a[1..], b);
      TextBehind(Text(a[1..]), Text(b), rest);
    }
  }

  lemma {:induction false} ChainCut(toks: seq<Token>, rest: string, b: string)
    requires Chain(toks, rest + b)
    ensures Chain(toks, rest)
  {
    if toks != [] {
      ChainCut(toks[1..], rest, b);
      TextBehind(Text(toks[1..]), rest, b);
      CutBehind(toks[0], Text(toks[1..]) + rest, b);
    }
  }

  predicate AllSealed(toks: seq<Token>) { forall t :: t in toks ==> Sealed(t) }

  lemma {:induction false} ChainSealed(toks: seq<Token>, rest: string, b: string)
    requires Chain(toks, rest) && AllSealed(toks)
    ensures Chain(toks, rest + b)
  {
    if toks != [] {
      ChainSealed(toks[1..], rest, b);
      TextBehind(Text(toks[1..]), rest, b);
      SealedToken(toks[0], Text(toks[1..]) + rest, b);
    }
  }

  /** A text whose tokens are all sealed can be put in front of any text. */
  lemma LexSealed(p: string, s: string)
    requires Lex(p).Ok? && AllSealed(Lex(p).value)
    ensures Lex(p + s) == Then(Lex(p).value, Lex(s))
  {
    LexIsChain(p);
    ChainSealed(Lex(p).value, "", s);
    assert "" + s == s;
    ChainLex(Lex(p).value, s);
  }

  predicate EndsOpen(toks: seq<Token>) { toks != [] && IsOpen(toks[|toks| - 1]) }

  predicate EndsHash(toks: seq<Token>) { toks != [] && IsHash(toks[|toks| - 1]) }

  /** `b` may be put behind `toks`: no token reads it as its lookahead. */
  predicate Fits(toks: seq<Token>, b: string) {
    b != "" && Inert(b[0]) && (EndsHash(toks) ==> b[0] != ' ' && b[0] != '\t')
  }

  lemma {:induction false} ChainText(toks: seq<Token>, rest: string)
    requires Chain(toks, rest) && toks != []
    ensures Text(toks) != "" && toks[|toks| - 1].text != ""
    ensures forall k :: 0 <= k < |toks| - 1 ==> !IsOpen(toks[k])
  {
    if |toks| > 1 {
      ChainText(toks[1..], rest);
      forall k | 0 <= k < |toks| - 1
        ensures !IsOpen(toks[k])
      {
        if k > 0 { assert toks[k] == toks[1..][k - 1]; }
      }
    }
  }

  lemma {:induction false} ChainExtend(toks: seq<Token>, b: string)
    requires Chain(toks, "") && !EndsOpen(toks) && Fits(toks, b)
    ensures Chain(toks, b)
  {
    if toks != [] {
      var more := toks[1..];
      ChainText(toks, "");
      assert more != [] ==> more[|more| - 1] == toks[|toks| - 1];
      assert |toks| > 1 ==> Text(more) != "" by { if |toks| > 1 { ChainText(more, ""); } }
      assert Text(more) + "" == Text(more);
      ChainExtend(more, b);
      ExtendBehind(toks[0], Text(more), b);
    }
  }

  /** Text with an inert first byte put behind a lexed text is lexed on its own. */
  lemma LexAppend(s: string, b: string)
    requires Lex(s).Ok? && !EndsOpen(Lex(s).value) && Fits(Lex(s).value, b)
    ensures Lex(s + b) == Then(Lex(s).value, Lex(b))
  {
    LexIsChain(s);
    ChainExtend(Lex(s).value, b);
    ChainLex(Lex(s).value, b);
  }

  /** `toks` after the open line comment at its end has taken in `line`. */
  function Grown(toks: seq<Token>, line: string): seq<Token>
    requires toks != []
  {
    toks[..|toks| - 1] + [Token(LineComment, toks[|toks| - 1].text + line)]
  }

  lemma ChainGrowAt(a: seq<Token>, t: Token, b: string, line: string, rest: string)
    requires Chain(a, t.text) && t.text != "" && TokenAt(t, "") && IsOpen(t) && b != "" && Inert(b[0])
    requires line == b[..LineEnd(b)] && rest == b[LineEnd(b)..]
    ensures Chain(a + [Token(LineComment, t.text + line)], rest)
  {
    var u := Token(LineComment, t.text + line);
    ChainBefore(a, t.text, b);
    ExtendOpen(t, b);
    TextBehind(t.text, line, rest);
    assert line + rest == b;
    ChainOfOne(u, rest);
    ChainAppend(a, [u], rest);
  }

  lemma ChainGrow(toks: seq<Token>, b: string)
    requires Chain(toks, "") && EndsOpen(toks) && b != "" && Inert(b[0])
    ensures Chain(Grown(toks, b[..LineEnd(b)]), b[LineEnd(b)..])
    ensures Text(Grown(toks, b[..LineEnd(b)])) == Text(toks) + b[..LineEnd(b)]
  {
    var a, t, line := toks[..|toks| - 1], toks[|toks| - 1], b[..LineEnd(b)];
    var u := Token(LineComment, t.text + line);
    assert toks == a + [t] && [t][1..] == [] && [u][1..] == [];
    ChainAppend(a, [t], "");
    assert Text([t]) == t.text && Text([u]) == u.text && Text([]) + "" == "" && t.text + "" == t.text;
    ChainGrowAt(a, t, b, line, b[LineEnd(b)..]);
    TextAppend(a, [t]);
    TextAppend(a, [u]);
    TextBehind(Text(a), t.text, line);
  }

  lemma {:induction false} ChainBefore(toks: seq<Token>, rest: string, b: string)
    requires Chain(toks, rest) && rest != "" && b != "" && Inert(b[0])
    ensures Chain(toks, rest + b)
  {
    if toks != [] {
      ChainBefore(toks[1..], rest, b);
      TextBehind(Text(toks[1..]), rest, b);
      ExtendBehind(toks[0], Text(toks[1..]) + rest, b);
    }
  }

  lemma Rejoin(s: string, b: string, n: nat)
    requires n <= |b|
    ensures (s + b[..n]) + b[n..] == s + b
  {}

  /** An open line comment at the end of a lexed text takes in the rest of its line. */
  lemma LexAppendOpen(s: string, b: string)
    requires Lex(s).Ok? && EndsOpen(Lex(s).value) && b != "" && Inert(b[0])
    ensures Lex(s + b) == Then(Grown(Lex(s).value, b[..LineEnd(b)]), Lex(b[LineEnd(b)..]))
  {
    var toks, line, rest := Lex(s).value, b[..LineEnd(b)], b[LineEnd(b)..];
    LexIsChain(s);
    ChainGrow(toks, b);
    ChainLex(Grown(toks, line), rest);
    Rejoin(s, b, LineEnd(b));
  }

  // ---------------------------------------------------------------- plain text

  /** A byte that is a token of its own wherever it stands at top level. */
  predicate IsPlain(c: char) { !IsQuote(c) && c != '-' && c != '/' && c != '#' && c != '$' && c != ';' }

  ghost predicate AllPlain(s: string) { forall k :: 0 <= k < |s| ==> IsPlain(s[k]) }

  function Single(c: char): Token { Token(if IsSpace(c) then Space else Code, [c]) }

  function Singles(s: string): (r: seq<Token>)
    ensures |r| == |s| && forall k :: 0 <= k < |s| ==> r[k] == Single(s[k])
  {
    seq(|s|, i requires 0 <= i < |s| => Single(s[i]))
  }

  lemma PlainToken(c: char, rest: string)
    requires IsPlain(c)
    ensures TokenAt(Single(c), rest)
  {
    assert ([c] + rest)[0] == c;
    assert forall tag: string :: tag != "" && tag <= [c] + rest ==> tag[0] == c;
  }

  lemma {:induction false} PlainChain(s: string, rest: string)
    requires AllPlain(s)
    ensures Chain(Singles(s), rest) && Text(Singles(s)) == s && AllSealed(Singles(s))
  {
    if s != "" {
      PlainChain(s[1..], rest);
      assert Singles(s)[1..] == Singles(s[1..]);
      PlainToken(s[0], s[1..] + rest);
      assert [s[0]] + s[1..] == s;
    }
  }

  /** Plain text with one token behind it. */
  lemma LexPlainToken(w: string, t: Token)
    requires AllPlain(w) && t.text != "" && TokenAt(t, "")
    ensures Lex(w + t.text) == Ok(Singles(w) + [t])
  {
    ChainOfOne(t, "");
    PlainChain(w, t.text);
    assert t.text + "" == t.text;
    ChainAppend(Singles(w), [t], "");
    TextAppend(Singles(w), [t]);
    ChainIsLex(Singles(w) + [t]);
  }
}
