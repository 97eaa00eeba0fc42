/** The batch handlers of internal/server/server.go: preflight, then ordered execution. */
module QueryBatch {
  import opened SqlText
  import opened SqlLexer
  import opened SqlSplit
  import opened SqlResplit
  import opened SqlKinds
  import opened SqlWords
  import opened SqlRewrite

  datatype Role = Viewer | Editor | Admin

  datatype AuthorizeError = GrantDisabled | GrantNeedsAdmin | ViewerReadOnly | DdlNeedsAdmin

  /** authorizeSQLKind */
  function Authorize(role: Role, kind: StatementKind, grantEnabled: bool): Option<AuthorizeError> {
    if kind == Grant then
      if !grantEnabled then Some(GrantDisabled)
      else if role != Admin then Some(GrantNeedsAdmin)
      else None
    else if role == Viewer && kind != Query then Some(ViewerReadOnly)
    else if role == Editor && kind == Ddl then Some(DdlNeedsAdmin)
    else None
  }

  predicate Allowed(role: Role, kind: StatementKind, grantEnabled: bool) {
    Authorize(role, kind, grantEnabled).None?
  }

  /** Why a kind is refused. */
  lemma RefusalReasons(role: Role, kind: StatementKind, grantEnabled: bool)
    ensures Authorize(role, kind, grantEnabled) == Some(GrantDisabled) <==> kind == Grant && !grantEnabled
    ensures Authorize(role, kind, grantEnabled) == Some(GrantNeedsAdmin) <==>
      kind == Grant && grantEnabled && role != Admin
    ensures Authorize(role, kind, grantEnabled) == Some(ViewerReadOnly) <==>
      role == Viewer && (kind == Dml || kind == Ddl)
    ensures Authorize(role, kind, grantEnabled) == Some(DdlNeedsAdmin) <==> role == Editor && kind == Ddl
  {}

  /** What the three roles may run. */
  lemma AllowedKinds(role: Role, kind: StatementKind, grantEnabled: bool)
    ensures Allowed(role, kind, grantEnabled) <==>
      match role
      case Viewer => kind == Query
      case Editor => kind == Query || kind == Dml
      case Admin => kind != Grant || grantEnabled
  {}

  /** The cluster under the session: each request succeeds or fails, and texts may already have a FORMAT clause. */
  datatype Cluster = Cluster(succeeds: nat -> bool, formatted: string -> bool)

  datatype Response =
    | BadRequest
    | Unclassified(statement: nat)
    | Denied(statement: nat)
    | Conflict
    | Failed(failedStatement: nat, executedStatements: nat, statementCount: nat)
    | Completed(executedStatements: nat, kinds: seq<StatementKind>)

  const MAX_BATCH := 100

  ghost predicate Fit(x: string, role: Role, grantEnabled: bool) {
    Classify(x).Classified? && Allowed(role, Classify(x).kind, grantEnabled)
  }

  ghost predicate AllAllowed(statements: seq<string>, role: Role, grantEnabled: bool) {
    forall x :: x in statements ==> Fit(x, role, grantEnabled)
  }

  ghost predicate KindIs(x: string, kind: StatementKind) { Classify(x) == Classified(kind) }

  /** The classes of the statements. */
  ghost predicate KindsOf(statements: seq<string>, kinds: seq<StatementKind>) {
    |kinds| == |statements| && forall i :: 0 <= i < |statements| ==> KindIs(statements[i], kinds[i])
  }

  lemma KindsNext(statements: seq<string>, i: nat, kinds: seq<StatementKind>, kind: StatementKind)
    requires i < |statements| && KindsOf(statements[..i], kinds) && Classify(statements[i]) == Classified(kind)
    ensures KindsOf(statements[..i + 1], kinds + [kind])
  {
    assert forall k :: 0 <= k < i ==> statements[..i + 1][k] == statements[..i][k];
    assert KindIs(statements[i], kind);
  }

  lemma AllAllowedNext(statements: seq<string>, i: nat, role: Role, grantEnabled: bool)
    requires i < |statements| && AllAllowed(statements[..i], role, grantEnabled)
      && Fit(statements[i], role, grantEnabled)
    ensures AllAllowed(statements[..i + 1], role, grantEnabled)
  {
    assert statements[..i + 1] == statements[..i] + [statements[i]];
  }

  lemma NotAllAllowed(statements: seq<string>, i: nat, role: Role, grantEnabled: bool)
    requires i < |statements| && !Fit(statements[i], role, grantEnabled)
    ensures !AllAllowed(statements, role, grantEnabled)
  {
    assert statements[i] in statements;
  }

  /** The answer to the first statement, at `i`, that does not classify or is not allowed. */
  ghost predicate IsRefusal(statements: seq<string>, role: Role, grantEnabled: bool, i: nat, response: Response) {
    && i < |statements| && AllAllowed(statements[..i], role, grantEnabled) && !Fit(statements[i], role, grantEnabled)
    && response == if Classify(statements[i]).Rejected? then Unclassified(i + 1) else Denied(i + 1)
  }

  /** The preflight loop. */
  method Preflight(statements: seq<string>, role: Role, grantEnabled: bool)
    returns (kinds: seq<StatementKind>, refusal: Option<Response>)
    ensures refusal.None? <==> AllAllowed(statements, role, grantEnabled)
    ensures refusal.None? ==> KindsOf(statements, kinds)
    ensures refusal.Some? ==> exists i :: IsRefusal(statements, role, grantEnabled, i, refusal.value)
  {
    kinds := [];
    for i := 0 to |statements|
      invariant AllAllowed(statements[..i], role, grantEnabled) && KindsOf(statements[..i], kinds)
    {
      var verdict := Classify(statements[i]);
      if verdict.Rejected? {
        NotAllAllowed(statements, i, role, grantEnabled);
        assert IsRefusal(statements, role, grantEnabled, i, Unclassified(i + 1));
        return kinds, Some(Unclassified(i + 1));
      }
      if !Allowed(role, verdict.kind, grantEnabled) {
        NotAllAllowed(statements, i, role, grantEnabled);
        assert IsRefusal(statements, role, grantEnabled, i, Denied(i + 1));
        return kinds, Some(Denied(i + 1));
      }
      KindsNext(statements, i, kinds, verdict.kind);
      kinds := kinds + [verdict.kind];
      AllAllowedNext(statements, i, role, grantEnabled);
    }
    assert statements[..|statements|] == statements;
    return kinds, None;
  }

  /** What Execute sends for a statement that classifies. */
  function Sent(cluster: Cluster, x: string, kind: StatementKind): string {
    SentText(x, kind, cluster.formatted(TrimSpace(x)))
  }

  /** Execute: classifies again, rewrites and sends. */
  method Execute(cluster: Cluster, at: nat, x: string) returns (ok: bool, kind: StatementKind, sent: seq<string>)
    ensures Classify(x).Rejected? ==> !ok && sent == []
    ensures Classify(x).Classified? ==>
      ok == cluster.succeeds(at) && Classify(x) == Classified(kind) && sent == [Sent(cluster, x, kind)]
  {
    var verdict := Classify(x);
    if verdict.Rejected? { return false, Query, []; }
    kind := verdict.kind;
    return cluster.succeeds(at), kind, [Sent(cluster, x, kind)];
  }

  /** The texts of the first `n` statements, as they go over the wire. */
  ghost function Wire(cluster: Cluster, statements: seq<string>, kinds: seq<StatementKind>, n: nat): (r: seq<string>)
    requires n <= |statements| == |kinds|
    ensures |r| == n && forall i :: 0 <= i < n ==> r[i] == Sent(cluster, statements[i], kinds[i])
  {
    seq(n, i requires 0 <= i < n => Sent(cluster, statements[i], kinds[i]))
  }

  lemma WireNext(cluster: Cluster, statements: seq<string>, kinds: seq<StatementKind>, n: nat)
    requires n < |statements| == |kinds|
    ensures Wire(cluster, statements, kinds, n + 1) ==
      Wire(cluster, statements, kinds, n) + [Sent(cluster, statements[n], kinds[n])]
  {}

  lemma KindAt(statements: seq<string>, kinds: seq<StatementKind>, i: nat)
    requires KindsOf(statements, kinds) && i < |statements|
    ensures Classify(statements[i]) == Classified(kinds[i])
  {
    assert KindIs(statements[i], kinds[i]);
  }

  /** `executed` statements have succeeded and been reported, and nothing else has been sent. */
  ghost predicate Progress(cluster: Cluster, statements: seq<string>, kinds: seq<StatementKind>, executed: nat,
                           summary: seq<StatementKind>, sent: seq<string>) {
    && executed <= |statements| == |kinds| && summary == kinds[..executed]
    && (forall k :: 0 <= k < executed ==> cluster.succeeds(k))
    && sent == Wire(cluster, statements, kinds, executed)
  }

  lemma ProgressNext(cluster: Cluster, statements: seq<string>, kinds: seq<StatementKind>, executed: nat,
                     summary: seq<StatementKind>, sent: seq<string>)
    requires Progress(cluster, statements, kinds, executed, summary, sent) && executed < |statements|
    ensures var sent' := sent + [Sent(cluster, statements[executed], kinds[executed])];
      && sent' == Wire(cluster, statements, kinds, executed + 1)
      && (cluster.succeeds(executed) ==>
         Progress(cluster, statements, kinds, executed + 1, summary + [kinds[executed]], sent'))
  {
    WireNext(cluster, statements, kinds, executed);
  }

  /** One turn of the execution loop. */
  method ExecuteAt(cluster: Cluster, statements: seq<string>, ghost kinds: seq<StatementKind>, executed: nat,
                   summary: seq<StatementKind>, sent: seq<string>)
    returns (ok: bool, summary': seq<StatementKind>, sent': seq<string>)
    requires KindsOf(statements, kinds) && executed < |statements|
    requires Progress(cluster, statements, kinds, executed, summary, sent)
    ensures ok == cluster.succeeds(executed) && sent' == Wire(cluster, statements, kinds, executed + 1)
    ensures if ok then Progress(cluster, statements, kinds, executed + 1, summary', sent') else summary' == summary
  {
    KindAt(statements, kinds, executed);
    ProgressNext(cluster, statements, kinds, executed, summary, sent);
    var kind, texts;
    ok, kind, texts := Execute(cluster, executed, statements[executed]);
    summary', sent' := if ok then summary + [kind] else summary, sent + texts;
  }

  /** The execution loop; `kinds` are the classes that the preflight found. */
  method Run(cluster: Cluster, statements: seq<string>, ghost kinds: seq<StatementKind>)
    returns (executed: nat, summary: seq<StatementKind>, sent: seq<string>)
    requires KindsOf(statements, kinds)
    ensures executed <= |statements| == |kinds| && summary == kinds[..executed]
    ensures forall k :: 0 <= k < executed ==> cluster.succeeds(k)
    ensures executed < |statements| ==> !cluster.succeeds(executed)
    ensures sent == Wire(cluster, statements, kinds, if executed < |statements| then executed + 1 else executed)
  {
    executed, summary, sent := 0, [], [];
    while executed < |statements|
      invariant Progress(cluster, statements, kinds, executed, summary, sent)
    {
      var ok;
      ok, summary, sent := ExecuteAt(cluster, statements, kinds, executed, summary, sent);
      if !ok { return; }
      executed := executed + 1;
    }
  }

  /** Every text on the wire is one statement, of exactly the kind that was authorized, and the splitter
      gives the statement it came from back unchanged. */
  lemma WireIsAuthorized(sql: string, role: Role, grantEnabled: bool, cluster: Cluster, kinds: seq<StatementKind>,
                         n: nat, k: nat)
    requires Split(sql).Ok? && AllAllowed(Split(sql).value, role, grantEnabled) && KindsOf(Split(sql).value, kinds)
    requires k < n <= |Split(sql).value|
    ensures var text := Wire(cluster, Split(sql).value, kinds, n)[k];
      var x := Split(sql).value[k];
      && Split(x) == Ok([x])
      && Split(text) == Ok([text])
      && Classify(text) == Classify(x) == Classified(kinds[k])
      && Allowed(role, kinds[k], grantEnabled)
  {
    var x := Split(sql).value[k];
    assert x in Split(sql).value && Fit(x, role, grantEnabled);
    KindAt(Split(sql).value, kinds, k);
    ClassifiedOutput(sql, x);
    SplitToItself(x);
    ExecuteKeepsStatement(sql, x, kinds[k], cluster.formatted(TrimSpace(x)));
  }

  /** Nothing but queries ever reaches the cluster on behalf of a viewer. */
  lemma ViewerOnlyQueries(sql: string, grantEnabled: bool, cluster: Cluster, kinds: seq<StatementKind>, n: nat, k: nat)
    requires Split(sql).Ok? && AllAllowed(Split(sql).value, Viewer, grantEnabled) && KindsOf(Split(sql).value, kinds)
    requires k < n <= |Split(sql).value|
    ensures var text := Wire(cluster, Split(sql).value, kinds, n)[k];
      Split(text) == Ok([text]) && Classify(text) == Classified(Query)
  {
    WireIsAuthorized(sql, Viewer, grantEnabled, cluster, kinds, n, k);
    AllowedKinds(Viewer, kinds[k], grantEnabled);
  }

  /** What the first words of a text on the wire may be. */
  ghost predicate MayBeSent(role: Role, grantEnabled: bool, text: string) {
    && (role == Viewer ==> IsQueryText(StatementBody(text)))
    && (role == Editor ==> IsQueryText(StatementBody(text)) || IsDmlText(StatementBody(text)))
    && (IsGrantText(StatementBody(text)) ==> role == Admin && grantEnabled)
  }

  /** The statement as it is, or, for a query that has no FORMAT clause yet, without a final semicolon and with FORMAT
      JSON behind it. */
  ghost predicate SentFor(cluster: Option<Cluster>, x: string, text: string) {
    && cluster.Some?
    && if !IsQueryText(StatementBody(x)) || cluster.value.formatted(x) then text == x
       else if x != "" && x[|x| - 1] == ';' then text == x[..|x| - 1] + " FORMAT JSON"
       else text == x + " FORMAT JSON"
  }

  lemma SentForStatement(sql: string, role: Role, grantEnabled: bool, cluster: Cluster, kinds: seq<StatementKind>,
                         n: nat, k: nat)
    requires Split(sql).Ok? && AllAllowed(Split(sql).value, role, grantEnabled) && KindsOf(Split(sql).value, kinds)
    requires k < n <= |Split(sql).value|
    ensures SentFor(Some(cluster), Split(sql).value[k], Wire(cluster, Split(sql).value, kinds, n)[k])
  {
    var x := Split(sql).value[k];
    WireIsAuthorized(sql, role, grantEnabled, cluster, kinds, n, k);
    WordsOfOne(x, kinds[k]);
    assert x in Split(sql).value;
    ClassifiedOutput(sql, x);
    TrimFixed(x);
    SentTells(x, kinds[k], cluster.formatted(TrimSpace(x)));
  }

  lemma WordsOfOne(text: string, kind: StatementKind)
    requires Split(text) == Ok([text]) && Classify(text) == Classified(kind)
    ensures IsQueryText(StatementBody(text)) <==> kind == Query
    ensures IsDmlText(StatementBody(text)) <==> kind == Dml
    ensures IsDdlText(StatementBody(text)) <==> kind == Ddl
    ensures IsGrantText(StatementBody(text)) <==> kind == Grant
  {
    BodyWords(StatementBody(text));
  }

  /** Only the words of the classes that the role may run reach the cluster. */
  lemma WireWords(sql: string, role: Role, grantEnabled: bool, cluster: Cluster, kinds: seq<StatementKind>, n: nat,
                  k: nat)
    requires Split(sql).Ok? && AllAllowed(Split(sql).value, role, grantEnabled) && KindsOf(Split(sql).value, kinds)
    requires k < n <= |Split(sql).value|
    ensures MayBeSent(role, grantEnabled, Wire(cluster, Split(sql).value, kinds, n)[k])
  {
    var text := Wire(cluster, Split(sql).value, kinds, n)[k];
    WireIsAuthorized(sql, role, grantEnabled, cluster, kinds, n, k);
    WordsOfOne(text, kinds[k]);
    AllowedKinds(role, kinds[k], grantEnabled);
  }

  lemma AllWireWords(sql: string, role: Role, grantEnabled: bool, cluster: Cluster, kinds: seq<StatementKind>, n: nat,
                     sent: seq<string>)
    requires Split(sql).Ok? && AllAllowed(Split(sql).value, role, grantEnabled) && KindsOf(Split(sql).value, kinds)
    requires n <= |Split(sql).value| && sent == Wire(cluster, Split(sql).value, kinds, n)
    ensures forall k :: 0 <= k < |sent| ==>
      MayBeSent(role, grantEnabled, sent[k]) && SentFor(Some(cluster), Split(sql).value[k], sent[k])
  {
    forall k | 0 <= k < |sent|
      ensures MayBeSent(role, grantEnabled, sent[k]) && SentFor(Some(cluster), Split(sql).value[k], sent[k])
    {
      WireWords(sql, role, grantEnabled, cluster, kinds, n, k);
      SentForStatement(sql, role, grantEnabled, cluster, kinds, n, k);
    }
  }

  /** The query handler: nothing is sent unless the whole batch is classified and allowed; what is sent is a
      prefix of the split list, and its first words are such as the role may send; and the reported counts are the
      numbers of statements that succeeded. */
  method HandleQuery(sql: string, role: Role, grantEnabled: bool, cluster: Option<Cluster>)
    returns (response: Response, ghost kinds: seq<StatementKind>, sent: seq<string>)
    ensures !response.Failed? && !response.Completed? ==> sent == []
    ensures response.BadRequest? <==> Split(sql).Err? || |Split(sql).value| == 0 || |Split(sql).value| > 100
    ensures response.Unclassified? || response.Denied? ==>
      Split(sql).Ok? && exists i :: IsRefusal(Split(sql).value, role, grantEnabled, i, response)
    ensures sent != [] ==> cluster.Some? && Split(sql).Ok? && AllAllowed(Split(sql).value, role, grantEnabled)
    ensures sent != [] ==> KindsOf(Split(sql).value, kinds)
    ensures response.Completed? ==>
      && sent != [] && |sent| == |Split(sql).value| == response.executedStatements <= 100
      && (forall k :: 0 <= k < |sent| ==> cluster.value.succeeds(k))
      && |kinds| == |sent| && sent == Wire(cluster.value, Split(sql).value, kinds, |sent|) && response.kinds == kinds
    ensures response.Failed? ==>
      && sent != [] && |sent| == response.failedStatement == response.executedStatements + 1
      && response.statementCount == |Split(sql).value| && |sent| <= response.statementCount <= 100
      && (forall k :: 0 <= k < response.executedStatements ==> cluster.value.succeeds(k))
      && !cluster.value.succeeds(response.executedStatements)
      && |kinds| == response.statementCount && sent == Wire(cluster.value, Split(sql).value, kinds, |sent|)
    ensures response.Conflict? <==>
      && cluster.None? && Split(sql).Ok? && 0 < |Split(sql).value| <= 100
      && AllAllowed(Split(sql).value, role, grantEnabled)
    ensures forall k :: 0 <= k < |sent| ==> MayBeSent(role, grantEnabled, sent[k])
    ensures forall k :: 0 <= k < |sent| ==> SentFor(cluster, Split(sql).value[k], sent[k])
  {
    kinds := [];
    var split := SplitStatements(sql);
    if split.Err? { return BadRequest, [], []; }
    var statements := split.value;
    if |statements| == 0 || |statements| > MAX_BATCH { return BadRequest, [], []; }
    var found, refusal := Preflight(statements, role, grantEnabled);
    if refusal.Some? { return refusal.value, [], []; }
    if cluster.None? { return Conflict, [], []; }
    var executed, summary, texts := Run(cluster.value, statements, found);
    AllWireWords(sql, role, grantEnabled, cluster.value, found, |texts|, texts);
    if executed < |statements| {
      return Failed(executed + 1, executed, |statements|), found, texts;
    }
    assert found[..executed] == found;
    return Completed(executed, summary), found, texts;
  }

  /** DryRun's own split of a statement of the batch: never another number of statements, and what it sends
      is one query. */
  lemma DryRunAgrees(sql: string, role: Role, grantEnabled: bool, x: string)
    requires Split(sql).Ok? && AllAllowed(Split(sql).value, role, grantEnabled) && x in Split(sql).value
    ensures Split(x) == Ok([x])
    ensures var text := ExplainPrefix(x) + x; Split(text) == Ok([text]) && Classify(text) == Classified(Query)
  {
    ClassifiedOutput(sql, x);
    SplitToItself(x);
    DryRunKeepsStatement(sql, x);
  }
}
