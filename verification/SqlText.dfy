/** Text helpers shared by the SQL modules. A string is a sequence of bytes; the model covers ASCII bytes. */
module SqlText {

  datatype Option<+T> = None | Some(value: T)

  const VT := '\U{B}'
  const FF := '\U{C}'

  /** The ASCII bytes that Go's strings.TrimSpace strips. */
  predicate IsBlank(c: char) {
    c == ' ' || c == '\t' || c == '\n' || c == VT || c == FF || c == '\r'
  }

  ghost predicate AllBlank(s: string) {
    forall k :: 0 <= k < |s| ==> IsBlank(s[k])
  }

  lemma Assoc<T>(a: seq<T>, b: seq<T>, c: seq<T>)
    ensures (a + b) + c == a + (b + c)
  {}

  lemma InitBehind<T>(a: seq<T>, b: seq<T>)
    requires b != []
    ensures (a + b)[..|a + b| - 1] == a + b[..|b| - 1] && (a + b)[|a + b| - 1] == b[|b| - 1]
  {}

  lemma InitAndLast<T>(a: seq<T>)
    requires a != []
    ensures a == a[..|a| - 1] + [a[|a| - 1]]
  {}

  lemma TextBehind(a: string, b: string, c: string)
    ensures (a + b) + c == a + (b + c)
    ensures ((a + b) + c)[|a|..] == b + c
  {}

  lemma FourParts(a: string, b: string, c: string, d: string)
    ensures ((a + b) + c) + d == a + (b + (c + d))
  {}

  /** A non-empty text whose two ends survive trimming. */
  ghost predicate Firm(s: string) {
    s != "" && !IsBlank(s[0]) && !IsBlank(s[|s| - 1])
  }

  function TrimLeft(s: string): (r: string)
    ensures |r| <= |s|
    ensures r != "" ==> !IsBlank(r[0])
  {
    if s != "" && IsBlank(s[0]) then TrimLeft(s[1..]) else s
  }

  function TrimRight(s: string): (r: string)
    ensures |r| <= |s|
    ensures r != "" ==> !IsBlank(r[|r| - 1])
  {
    if s != "" && IsBlank(s[|s| - 1]) then TrimRight(s[..|s| - 1]) else s
  }

  lemma {:induction false} TrimLeftParts(s: string) returns (a: string)
    ensures s == a + TrimLeft(s) && AllBlank(a)
  {
    if s != "" && IsBlank(s[0]) {
      a := TrimLeftParts(s[1..]);
      a := [s[0]] + a;
    } else {
      a := "";
    }
  }

  lemma {:induction false} TrimRightParts(s: string) returns (b: string)
    ensures s == TrimRight(s) + b && AllBlank(b)
  {
    if s != "" && IsBlank(s[|s| - 1]) {
      b := TrimRightParts(s[..|s| - 1]);
      b := b + [s[|s| - 1]];
    } else {
      b := "";
    }
  }

  /** strings.TrimSpace */
  function TrimSpace(s: string): (r: string)
    ensures |r| <= |s|
    ensures r == "" || Firm(r)
  {
    var r := TrimRight(TrimLeft(s));
    assert r == "" || r[0] == TrimLeft(s)[0] by { TrimRightPrefix(TrimLeft(s)); }
    r
  }

  lemma {:induction false} TrimRightPrefix(s: string)
    ensures TrimRight(s) <= s
  {
    var b := TrimRightParts(s);
  }

  /** The blanks that TrimSpace takes off the two ends. */
  lemma TrimParts(s: string) returns (a: string, b: string)
    ensures s == a + TrimSpace(s) + b
    ensures AllBlank(a) && AllBlank(b)
  {
    a := TrimLeftParts(s);
    b := TrimRightParts(TrimLeft(s));
    assert s == a + (TrimSpace(s) + b);
  }

  lemma {:induction false} TrimLeftBlank(s: string)
    requires AllBlank(s)
    ensures TrimLeft(s) == ""
  {
    if s != "" { TrimLeftBlank(s[1..]); }
  }

  lemma {:induction false} TrimLeftBefore(p: string, s: string)
    requires s != "" && !IsBlank(s[0])
    ensures TrimLeft(p + s) == TrimLeft(p) + s
  {
    if p == "" {
      assert p + s == s;
    } else if IsBlank(p[0]) {
      TrimLeftBefore(p[1..], s);
      assert (p + s)[1..] == p[1..] + s;
    }
  }

  lemma {:induction false} TrimRightAround(s: string, b: string)
    requires AllBlank(b) && s != "" && !IsBlank(s[|s| - 1])
    ensures TrimRight(s + b) == s
  {
    if b == "" {
      assert s + b == s;
    } else {
      var k := |b| - 1;
      TrimRightAround(s, b[..k]);
      assert (s + b)[..|s| + k] == s + b[..k];
      assert (s + b)[|s| + k] == b[k];
    }
  }

  /** Text in front of a firm text is trimmed on the left only. */
  lemma TrimBefore(p: string, m: string, b: string)
    requires Firm(m) && AllBlank(b)
    ensures TrimSpace(p + m + b) == TrimLeft(p) + m
  {
    TextBehind(p, m, b);
    TrimLeftBefore(p, m + b);
    TextBehind(TrimLeft(p), m, b);
    LastBehind(TrimLeft(p), m);
    TrimRightAround(TrimLeft(p) + m, b);
  }

  lemma LastBehind(p: string, m: string)
    requires m != ""
    ensures (p + m)[|p + m| - 1] == m[|m| - 1]
  {}

  /** TrimSpace is determined by what it takes off: blanks around a firm middle. */
  lemma TrimAround(a: string, m: string, b: string)
    requires AllBlank(a) && AllBlank(b)
    requires m == "" || Firm(m)
    ensures TrimSpace(a + m + b) == m
  {
    if m == "" {
      TrimLeftBlank(a + m + b);
    } else {
      TrimBefore(a, m, b);
      TrimLeftBlank(a);
      assert "" + m == m;
    }
  }

  /** What trimming takes off: nothing but spaces, tabs, line feeds, vertical tabs, form feeds and carriage returns,
      and as many of them as stand at the ends. */
  lemma TrimSpells(s: string) returns (a: string, b: string)
    ensures s == a + TrimSpace(s) + b
    ensures forall k :: 0 <= k < |a + b| ==> (a + b)[k] in " \t\n\U{B}\U{C}\r"
    ensures TrimSpace(s) != "" ==>
      TrimSpace(s)[0] !in " \t\n\U{B}\U{C}\r" && TrimSpace(s)[|TrimSpace(s)| - 1] !in " \t\n\U{B}\U{C}\r"
  {
    a, b := TrimParts(s);
  }

  lemma TrimFixed(s: string)
    requires s == "" || Firm(s)
    ensures TrimSpace(s) == s
  {
    TrimAround("", s, "");
    assert "" + s + "" == s;
  }

  /** Cutting sql[i..] after position `j` and `n` more bytes, with `cur` already taken before `i`. */
  lemma Cut(cur: string, sql: string, i: nat, j: nat, n: nat)
    requires i <= j && j + n <= |sql|
    ensures sql[i..][j - i + n..] == sql[j..][n..]
    ensures cur + sql[i..][..j - i + n] == (cur + sql[i..j]) + sql[j..][..n]
  {
    assert sql[i..][..j - i + n] == sql[i..j] + sql[j..][..n];
  }

  lemma Glue(s: string, i: nat, j: nat, k: nat)
    requires i <= j <= k <= |s|
    ensures s[i..j] + s[j..k] == s[i..k]
  {}

  /** strings.ReplaceAll for a one-byte pattern. */
  function ReplaceAll(s: string, c: char, r: string): string {
    if s == "" then "" else (if s[0] == c then r else [s[0]]) + ReplaceAll(s[1..], c, r)
  }

  function Join(parts: seq<string>, sep: string): string {
    if parts == [] then ""
    else if |parts| == 1 then parts[0]
    else parts[0] + sep + Join(parts[1..], sep)
  }
}
