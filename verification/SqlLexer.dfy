/** The lexical structure of SQL text as internal/clickhouse/client.go scans it: `First` and `Lex` cut a text into
    tokens. */
module SqlLexer {
  import opened SqlText
  import opened SqlBytes

  datatype Kind = Space | Code | Quoted | Heredoc | BlockComment | LineComment | Semicolon

  datatype Token = Token(kind: Kind, text: string)

  datatype LexError = UnterminatedQuote | UnterminatedHeredoc | UnterminatedComment

  datatype Result<+T> = Ok(value: T) | Err(error: LexError)

  // ---------------------------------------------------------------- scanning one token

  predicate IsSpace(c: char) { c == ' ' || c == '\t' || c == '\r' || c == '\n' }

  predicate IsQuote(c: char) { c == '\'' || c == '"' || c == '`' }

  /** `s` begins with the two bytes `a` and `b`. */
  predicate Opens(s: string, a: char, b: char) { |s| >= 2 && s[0] == a && s[1] == b }

  /** `tag` occurs in `s` at offset `k`. */
  predicate Has(s: string, k: nat, tag: string) { k + |tag| <= |s| && s[k..k + |tag|] == tag }

  predicate IsWordByte(c: char) {
    c == '_' || '0' <= c <= '9' || 'a' <= c <= 'z' || 'A' <= c <= 'Z'
  }

  /** A count moved right by the `n` bytes already consumed. */
  function After(n: nat, end: Option<nat>): Option<nat> {
    match end
    case None => None
    case Some(e) => Some(n + e)
  }

  /** Bytes from just inside a quote up to and including its closing quote. */
  function QuoteEnd(s: string, q: char): (r: Option<nat>)
    ensures r.Some? ==> 0 < r.value <= |s|
  {
    if s == "" then None
    else if s[0] == '\\' then
      if |s| == 1 then None else After(2, QuoteEnd(s[2..], q))
    else if s[0] != q then After(1, QuoteEnd(s[1..], q))
    else if |s| >= 2 && s[1] == q then After(2, QuoteEnd(s[2..], q))
    else Some(1)
  }

  /** Bytes up to and including the next occurrence of the heredoc delimiter. */
  function HeredocEnd(s: string, tag: string): (r: Option<nat>)
    requires tag != ""
    ensures r.Some? ==> |tag| <= r.value <= |s|
  {
    if Has(s, 0, tag) then Some(|tag|)
    else if s == "" then None
    else After(1, HeredocEnd(s[1..], tag))
  }

  /** Bytes from inside `depth` nested block comments up to and including the last close. */
  function BlockEnd(s: string, depth: nat): (r: Option<nat>)
    requires depth > 0
    ensures r.Some? ==> 2 <= r.value <= |s|
  {
    if s == "" then None
    else if Opens(s, '/', '*') then After(2, BlockEnd(s[2..], depth + 1))
    else if Opens(s, '*', '/') then if depth == 1 then Some(2) else After(2, BlockEnd(s[2..], depth - 1))
    else After(1, BlockEnd(s[1..], depth))
  }

  /** Bytes up to and including the line feed, or the whole rest. */
  function LineEnd(s: string): (r: nat)
    ensures r <= |s|
    ensures forall k :: 0 <= k < r - 1 ==> s[k] != '\n'
    ensures r == |s| || (r > 0 && s[r - 1] == '\n')
  {
    if s == "" then 0
    else if s[0] == '\n' then 1
    else 1 + LineEnd(s[1..])
  }

  /** lineCommentDelimiter: the length of the line-comment opener at the head of `s`, or 0. */
  function OpenerLen(s: string): (r: nat)
    ensures r <= 2 && r <= |s|
  {
    if Opens(s, '-', '-') || Opens(s, '/', '/') || Opens(s, '#', '!') then 2
    else if Opens(s, '#', ' ') || Opens(s, '#', '\t') then 1
    else 0
  }

  function WordLen(s: string): (r: nat)
    ensures r <= |s|
    ensures forall k :: 0 <= k < r ==> IsWordByte(s[k])
    ensures r < |s| ==> !IsWordByte(s[r])
  {
    if s != "" && IsWordByte(s[0]) then 1 + WordLen(s[1..]) else 0
  }

  ghost predicate IsTag(tag: string) {
    && |tag| >= 2 && tag[0] == '$' && tag[|tag| - 1] == '$'
    && forall k :: 0 < k < |tag| - 1 ==> WordByte(tag[k])
  }

  /** heredocDelimiterAt: the `$word$` delimiter at the head of `s`, or the empty string. */
  function HeredocTag(s: string): (r: string)
    ensures r <= s
    ensures r != "" ==> IsTag(r)
  {
    if s == "" || s[0] != '$' then ""
    else
      var w := WordLen(s[1..]);
      if 1 + w < |s| && s[1 + w] == '$' then
        var tag := s[..w + 2];
        assert forall k :: 0 < k < |tag| - 1 ==> tag[k] == s[1..][k - 1];
        tag
      else ""
  }

  /** The heredoc at the head of `s`, when its closing delimiter ends `end` bytes behind its first one. */
  function HeredocOf(s: string, tag: string, end: Option<nat>): (r: Result<Token>)
    requires tag != "" && tag <= s && (end.Some? ==> |tag| + end.value <= |s|)
    ensures r.Ok? ==> r.value.text != "" && r.value.text <= s
  {
    match end
    case None => Err(UnterminatedHeredoc)
    case Some(n) => Ok(Token(Heredoc, s[..|tag| + n]))
  }

  /** The heredoc at the head of `s`, which begins with the delimiter `tag`. */
  function HeredocToken(s: string, tag: string): (r: Result<Token>)
    requires tag != "" && tag <= s
    ensures r.Ok? ==> r.value.text != "" && r.value.text <= s
  {
    HeredocOf(s, tag, HeredocEnd(s[|tag|..], tag))
  }

  /** The first token of a non-empty text, read in the order in which the scanner tests. */
  function First(s: string): (r: Result<Token>)
    requires s != ""
    ensures r.Ok? ==> r.value.text != "" && r.value.text <= s
  {
    var o := OpenerLen(s);
    if o > 0 then Ok(Token(LineComment, s[..o + LineEnd(s[o..])]))
    else if Opens(s, '/', '*') then
      match BlockEnd(s[2..], 1)
      case None => Err(UnterminatedComment)
      case Some(n) => Ok(Token(BlockComment, s[..2 + n]))
    else if HeredocTag(s) != "" then
      HeredocToken(s, HeredocTag(s))
    else if IsQuote(s[0]) then
      match QuoteEnd(s[1..], s[0])
      case None => Err(UnterminatedQuote)
      case Some(n) => Ok(Token(Quoted, s[..1 + n]))
    else Ok(Token(if s[0] == ';' then Semicolon else if IsSpace(s[0]) then Space else Code, s[..1]))
  }

  function Then(toks: seq<Token>, r: Result<seq<Token>>): Result<seq<Token>> {
    match r
    case Ok(more) => Ok(toks + more)
    case Err(e) => Err(e)
  }

  /** The tokens of a text, or the construct that the end of the text leaves open. */
  function Lex(s: string): Result<seq<Token>> {
    if s == "" then Ok([])
    else
      match First(s)
      case Err(e) => Err(e)
      case Ok(t) => Then([t], Lex(s[|t.text|..]))
  }

  function Text(toks: seq<Token>): string {
    if toks == [] then "" else toks[0].text + Text(toks[1..])
  }

  lemma {:induction false} LexText(s: string)
    requires Lex(s).Ok?
    ensures Text(Lex(s).value) == s
  {
    if s != "" {
      var t := First(s).value;
      LexText(s[|t.text|..]);
      assert Lex(s).value[1..] == Lex(s[|t.text|..]).value;
    }
  }
}
