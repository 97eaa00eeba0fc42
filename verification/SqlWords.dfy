/** Classify (internal/clickhouse/client.go) in its own words: which texts have which class, with every word and
    every byte class written out. */
module SqlWords {
  import opened SqlBytes
  import opened SqlLexer
  import opened SqlSplit
  import opened SqlClassify
  import opened SqlKinds
  import opened SqlRewrite

  // ---------------------------------------------------------------- words, ignoring case

  /** `word` is in capitals. */
  ghost predicate Capital(word: string) { word != "" && forall k :: 0 <= k < |word| ==> 'A' <= word[k] <= 'Z' }

  /** The text has the capitals `word` at `k`, in any case. */
  ghost predicate Spells(s: string, k: nat, word: string) {
    k + |word| <= |s| && forall i :: 0 <= i < |word| ==>
      s[k + i] == word[i] || s[k + i] as int == word[i] as int + 'a' as int - 'A' as int
  }

  /** The first word of the text, as far as its letters go, is `word` in any case. */
  ghost predicate FirstIs(s: string, word: string) {
    && Spells(s, 0, word)
    && (|word| < |s| ==> !Letter(s[|word|]))
  }

  lemma {:induction false} UpperAt(s: string)
    ensures |Upper(s)| == |s| && forall k :: 0 <= k < |s| ==> Upper(s)[k] == UpperByte(s[k])
  {
    if s != "" { UpperAt(s[1..]); }
  }

  lemma SpellsUpper(s: string, k: nat, word: string)
    requires Capital(word)
    ensures Spells(s, k, word) <==> Has(Upper(s), k, word)
  {
    UpperAt(s);
    if k + |word| <= |s| {
      var u := Upper(s)[k..k + |word|];
      assert forall i :: 0 <= i < |word| ==> u[i] == UpperByte(s[k + i]);
      assert u == word <==> forall i :: 0 <= i < |word| ==> u[i] == word[i];
    }
  }

  /** The word that Classify looks up. */
  function FirstWordOf(body: string): string { Upper(body[..LetterLen(body)]) }

  lemma FirstIsWord(body: string, word: string)
    requires Capital(word)
    ensures FirstIs(body, word) <==> FirstWordOf(body) == word
  {
    var n := LetterLen(body);
    LetterLenSpec(body);
    UpperAt(body[..n]);
    if FirstIs(body, word) {
      forall i | 0 <= i < |word|
        ensures IsLetter(body[i]) && UpperByte(body[i]) == word[i]
      {
        assert 'A' <= word[i] <= 'Z' && (body[0 + i] == word[i] || body[0 + i] as int == word[i] as int + 32);
      }
      LetterLenIs(body, |word|);
      assert forall i :: 0 <= i < n ==> FirstWordOf(body)[i] == UpperByte(body[i]) == word[i];
    }
    if FirstWordOf(body) == word {
      forall i | 0 <= i < |word|
        ensures body[i] == word[i] || body[i] as int == word[i] as int + 'a' as int - 'A' as int
      {
        assert word[i] == UpperByte(body[i]);
      }
    }
  }

  // ---------------------------------------------------------------- the eight words of a query, and the others

  ghost predicate IsQueryText(body: string) {
    || FirstIs(body, "SELECT") || FirstIs(body, "SHOW") || FirstIs(body, "DESCRIBE") || FirstIs(body, "DESC")
    || FirstIs(body, "EXPLAIN") || FirstIs(body, "WITH") || FirstIs(body, "EXISTS") || FirstIs(body, "CHECK")
  }

  ghost predicate IsDmlText(body: string) {
    || FirstIs(body, "INSERT") || FirstIs(body, "UPDATE") || FirstIs(body, "DELETE") || FirstIs(body, "OPTIMIZE")
    || (FirstIs(body, "ALTER") && MutatesTable(body))
  }

  ghost predicate IsDdlText(body: string) {
    || FirstIs(body, "CREATE") || FirstIs(body, "DROP") || FirstIs(body, "TRUNCATE") || FirstIs(body, "RENAME")
    || FirstIs(body, "ATTACH") || FirstIs(body, "DETACH") || FirstIs(body, "SYSTEM") || FirstIs(body, "KILL")
    || (FirstIs(body, "ALTER") && !MutatesTable(body))
  }

  ghost predicate IsGrantText(body: string) { FirstIs(body, "GRANT") || FirstIs(body, "REVOKE") }

  /** The word stands at `k` and is not part of a longer one. */
  ghost predicate StandsAt(s: string, k: nat, word: string) {
    && Spells(s, k, word) && (0 < k <= |s| ==> !WordByte(s[k - 1]))
    && (k + |word| < |s| ==> !WordByte(s[k + |word|]))
  }

  /** ALTER, white space, TABLE, and somewhere behind it UPDATE or DELETE, each a word of its own. */
  ghost predicate MutatesTable(body: string) {
    && Spells(body, 0, "ALTER")
    && exists n: nat ::
      && 5 < n && StandsAt(body, n, "TABLE") && (forall k :: 5 <= k < n ==> WhiteSpace(body[k]))
      && VerbBehind(body, n)
  }

  /** UPDATE or DELETE stands somewhere behind the five bytes at `n`. */
  ghost predicate VerbBehind(body: string, n: nat) {
    exists k: nat :: n + 5 <= k && (StandsAt(body, k, "UPDATE") || StandsAt(body, k, "DELETE"))
  }

  lemma Capitals()
    ensures Capital("ALTER") && Capital("TABLE") && Capital("UPDATE") && Capital("DELETE")
  {}

  lemma UpperKeepsClasses(s: string)
    ensures |Upper(s)| == |s| && forall k :: 0 <= k < |s| ==>
      (IsWordByte(Upper(s)[k]) <==> WordByte(s[k])) && (IsTriviaByte(Upper(s)[k]) <==> WhiteSpace(s[k]))
  {
    UpperAt(s);
  }

  lemma StandsUpper(s: string, k: nat, word: string)
    requires Capital(word)
    ensures StandsAt(s, k, word) <==> WordAt(Upper(s), k, word)
  {
    SpellsUpper(s, k, word);
    UpperKeepsClasses(s);
  }

  lemma {:induction false} SpaceLenSpec(s: string)
    ensures forall k :: 0 <= k < SpaceLen(s) ==> IsTriviaByte(s[k])
    ensures SpaceLen(s) < |s| ==> !IsTriviaByte(s[SpaceLen(s)])
  {
    if s != "" && IsTriviaByte(s[0]) { SpaceLenSpec(s[1..]); }
  }

  /** How many white space bytes stand behind the first five. */
  lemma SpacesAt(body: string, u: string, n: nat)
    requires u == Upper(body) && |u| == |body| && 5 <= n <= |body| && (n < |body| ==> !WhiteSpace(body[n]))
    ensures SpaceLen(u[5..]) == n - 5 <==> forall k :: 5 <= k < n ==> WhiteSpace(body[k])
  {
    var v := u[5..];
    UpperKeepsClasses(body);
    SpaceLenSpec(v);
    assert forall k :: 0 <= k < |v| ==> (IsTriviaByte(v[k]) <==> WhiteSpace(body[5 + k]));
    assert forall k :: 5 <= k < n ==> (WhiteSpace(body[k]) <==> IsTriviaByte(v[k - 5]));
  }

  lemma TableFollows(body: string, n: nat)
    requires StandsAt(body, n, "TABLE")
    ensures n < |body| && !WhiteSpace(body[n])
  {
    assert body[n + 0] == "TABLE"[0] || body[n + 0] as int == "TABLE"[0] as int + 'a' as int - 'A' as int;
  }

  lemma VerbStands(body: string, u: string, k: nat)
    requires u == Upper(body)
    ensures StandsAt(body, k, "UPDATE") <==> WordAt(u, k, "UPDATE")
    ensures StandsAt(body, k, "DELETE") <==> WordAt(u, k, "DELETE")
  {
    Capitals();
    StandsUpper(body, k, "UPDATE");
    StandsUpper(body, k, "DELETE");
  }

  ghost predicate VerbFound(u: string, n: nat) {
    exists k: nat | k < |u| :: k >= 5 + n + 5 && (WordAt(u, k, "UPDATE") || WordAt(u, k, "DELETE"))
  }

  lemma VerbIsFound(body: string, u: string, n: nat)
    requires u == Upper(body)
    ensures VerbBehind(body, 5 + n) <==> VerbFound(u, n)
  {
    if VerbBehind(body, 5 + n) {
      var k: nat :| 5 + n + 5 <= k && (StandsAt(body, k, "UPDATE") || StandsAt(body, k, "DELETE"));
      VerbStands(body, u, k);
    }
    if VerbFound(u, n) {
      var k: nat :| k < |u| && k >= 5 + n + 5 && (WordAt(u, k, "UPDATE") || WordAt(u, k, "DELETE"));
      VerbStands(body, u, k);
    }
  }

  lemma AlterParts(body: string, u: string)
    requires u == Upper(body)
    ensures AlterMutation(body) <==>
      && |u| >= 5 && Has(u, 0, "ALTER")
      && SpaceLen(u[5..]) > 0 && WordAt(u, 5 + SpaceLen(u[5..]), "TABLE") && VerbFound(u, SpaceLen(u[5..]))
  {
    assert "ALTER" <= u <==> Has(u, 0, "ALTER");
  }

  /** ALTER is a mutation exactly when TABLE follows, and UPDATE or DELETE somewhere behind it. */
  lemma AlterIsMutation(body: string)
    ensures AlterMutation(body) <==> MutatesTable(body)
  {
    var u := Upper(body);
    AlterParts(body, u);
    Capitals();
    SpellsUpper(body, 0, "ALTER");
    UpperAt(body);
    if MutatesTable(body) {
      var n: nat :| 5 < n && StandsAt(body, n, "TABLE") && (forall k :: 5 <= k < n ==> WhiteSpace(body[k]))
        && VerbBehind(body, n);
      TableFollows(body, n);
      SpacesAt(body, u, n);
      StandsUpper(body, n, "TABLE");
      VerbIsFound(body, u, n - 5);
    }
    if AlterMutation(body) {
      var n := 5 + SpaceLen(u[5..]);
      StandsUpper(body, n, "TABLE");
      TableFollows(body, n);
      SpacesAt(body, u, n);
      VerbIsFound(body, u, n - 5);
    }
  }

  // ---------------------------------------------------------------- the four classes

  lemma QueryCapitals()
    ensures Capital("SELECT") && Capital("SHOW") && Capital("DESCRIBE") && Capital("DESC")
    ensures Capital("EXPLAIN") && Capital("WITH") && Capital("EXISTS") && Capital("CHECK")
  {}

  lemma DmlCapitals()
    ensures Capital("INSERT") && Capital("UPDATE") && Capital("DELETE") && Capital("OPTIMIZE") && Capital("ALTER")
  {}

  lemma DdlCapitals()
    ensures Capital("CREATE") && Capital("DROP") && Capital("TRUNCATE") && Capital("RENAME")
    ensures Capital("ATTACH") && Capital("DETACH") && Capital("SYSTEM") && Capital("KILL")
  {}

  lemma GrantCapitals()
    ensures Capital("GRANT") && Capital("REVOKE")
  {}

  lemma QueryWord(w: string)
    ensures w in QUERY_WORDS <==>
      || w == "SELECT" || w == "SHOW" || w == "DESCRIBE" || w == "DESC"
      || w == "EXPLAIN" || w == "WITH" || w == "EXISTS" || w == "CHECK"
  {}

  lemma DmlWord(w: string)
    ensures w in DML_WORDS <==> w == "INSERT" || w == "UPDATE" || w == "DELETE" || w == "OPTIMIZE"
  {}

  lemma DdlWord(w: string)
    ensures w in DDL_WORDS <==>
      || w == "CREATE" || w == "DROP" || w == "TRUNCATE" || w == "RENAME"
      || w == "ATTACH" || w == "DETACH" || w == "SYSTEM" || w == "KILL"
  {}

  lemma QueryTextWord(body: string, w: string)
    requires w == FirstWordOf(body)
    ensures IsQueryText(body) <==> w in QUERY_WORDS
  {
    QueryCapitals();
    QueryWord(w);
    FirstIsWord(body, "SELECT");
    FirstIsWord(body, "SHOW");
    FirstIsWord(body, "DESCRIBE");
    FirstIsWord(body, "DESC");
    FirstIsWord(body, "EXPLAIN");
    FirstIsWord(body, "WITH");
    FirstIsWord(body, "EXISTS");
    FirstIsWord(body, "CHECK");
  }

  lemma DmlTextWord(body: string, w: string)
    requires w == FirstWordOf(body)
    ensures IsDmlText(body) <==> w in DML_WORDS || (w == "ALTER" && AlterMutation(body))
  {
    DmlCapitals();
    DmlWord(w);
    FirstIsWord(body, "INSERT");
    FirstIsWord(body, "UPDATE");
    FirstIsWord(body, "DELETE");
    FirstIsWord(body, "OPTIMIZE");
    FirstIsWord(body, "ALTER");
    AlterIsMutation(body);
  }

  lemma DdlTextWord(body: string, w: string)
    requires w == FirstWordOf(body)
    ensures IsDdlText(body) <==> w in DDL_WORDS || (w == "ALTER" && !AlterMutation(body))
  {
    DdlCapitals();
    DmlCapitals();
    DdlWord(w);
    FirstIsWord(body, "CREATE");
    FirstIsWord(body, "DROP");
    FirstIsWord(body, "TRUNCATE");
    FirstIsWord(body, "RENAME");
    FirstIsWord(body, "ATTACH");
    FirstIsWord(body, "DETACH");
    FirstIsWord(body, "SYSTEM");
    FirstIsWord(body, "KILL");
    FirstIsWord(body, "ALTER");
    AlterIsMutation(body);
  }

  lemma GrantTextWord(body: string, w: string)
    requires w == FirstWordOf(body)
    ensures IsGrantText(body) <==> w == "GRANT" || w == "REVOKE"
  {
    GrantCapitals();
    FirstIsWord(body, "GRANT");
    FirstIsWord(body, "REVOKE");
  }

  /** The tables have no word in common, and neither ALTER, GRANT nor REVOKE is in one. */
  lemma WordsApart(w: string)
    ensures w in QUERY_WORDS ==> w !in DML_WORDS && w !in DDL_WORDS && w != "ALTER" && w != "GRANT" && w != "REVOKE"
    ensures w in DML_WORDS ==> w !in DDL_WORDS && w != "ALTER" && w != "GRANT" && w != "REVOKE"
    ensures w in DDL_WORDS ==> w != "ALTER" && w != "GRANT" && w != "REVOKE"
  {
    QueryWord(w);
    DmlWord(w);
    DdlWord(w);
  }

  lemma VerdictOfWord(body: string, w: string)
    requires w == FirstWordOf(body)
    ensures ClassifyBody(body) == Classified(Query) <==> w in QUERY_WORDS
    ensures ClassifyBody(body) == Classified(Dml) <==> w in DML_WORDS || (w == "ALTER" && AlterMutation(body))
    ensures ClassifyBody(body) == Classified(Ddl) <==> w in DDL_WORDS || (w == "ALTER" && !AlterMutation(body))
    ensures ClassifyBody(body) == Classified(Grant) <==> w == "GRANT" || w == "REVOKE"
  {
    WordsApart(w);
    EmptyIsNoWord();
  }

  lemma EmptyIsNoWord()
    ensures "" !in QUERY_WORDS && "" !in DML_WORDS && "" !in DDL_WORDS
  {
    QueryWord("");
    DmlWord("");
    DdlWord("");
  }

  lemma BodyWords(body: string)
    ensures ClassifyBody(body) == Classified(Query) <==> IsQueryText(body)
    ensures ClassifyBody(body) == Classified(Dml) <==> IsDmlText(body)
    ensures ClassifyBody(body) == Classified(Ddl) <==> IsDdlText(body)
    ensures ClassifyBody(body) == Classified(Grant) <==> IsGrantText(body)
  {
    var w := FirstWordOf(body);
    VerdictOfWord(body, w);
    QueryTextWord(body, w);
    DmlTextWord(body, w);
    DdlTextWord(body, w);
    GrantTextWord(body, w);
  }

  /** The body of the one statement of a text. */
  ghost predicate OneBody(s: string, body: string) {
    Split(s).Ok? && |Split(s).value| == 1 && body == StatementBody(Split(s).value[0])
  }

  /** A text has a class exactly when it is one statement and its first word, whatever its case, is one of the words
      of that class; ALTER is of two classes, told apart by what follows. */
  lemma ClassWords(s: string)
    ensures Classify(s) == Classified(Query) <==> exists body :: OneBody(s, body) && IsQueryText(body)
    ensures Classify(s) == Classified(Dml) <==> exists body :: OneBody(s, body) && IsDmlText(body)
    ensures Classify(s) == Classified(Ddl) <==> exists body :: OneBody(s, body) && IsDdlText(body)
    ensures Classify(s) == Classified(Grant) <==> exists body :: OneBody(s, body) && IsGrantText(body)
  {
    if Split(s).Ok? && |Split(s).value| == 1 {
      var body := StatementBody(Split(s).value[0]);
      assert OneBody(s, body);
      BodyWords(body);
    }
  }

  /** What a dry run asks for: a query tree for SELECT and WITH, a syntax tree for everything else. */
  lemma ExplainTells(x: string)
    ensures var body := StatementBody(x);
      ExplainPrefix(x) ==
        if FirstIs(body, "SELECT") || FirstIs(body, "WITH") then "EXPLAIN QUERY TREE " else "EXPLAIN AST "
  {
    QueryCapitals();
    FirstIsWord(StatementBody(x), "SELECT");
    FirstIsWord(StatementBody(x), "WITH");
  }
}
