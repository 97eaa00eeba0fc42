/** The answers of the cluster and session handlers of internal/server/server.go, and what each leaves behind, field by
    field and over whole runs. */
module RegistryAnswers {
  import opened SqlText
  import opened CaseFold
  import opened ClusterStore
  import opened Registry

  // ---------------------------------------------------------------- sessions, one request at a time

  /** All but the sessions is as it was. */
  ghost predicate SameClusters(r: Reg, t: Reg) { t.clusters == r.clusters && t.aliases == r.aliases && t.im == r.im }

  /** All sessions but one are as they were. */
  ghost predicate OtherSessionsStay(r: Reg, t: Reg, sid: string) {
    forall other :: other != sid ==>
      (other in t.sessions <==> other in r.sessions) && (other in r.sessions ==> t.sessions[other] == r.sessions[other])
  }

  /** When a switch is answered with what. */
  lemma SwitchAnswers(r: Reg, sid: string, alias: string, confirm: string)
    ensures var status := Status(r, Switch(sid, alias, confirm));
      var confirmed := alias != "" && alias == confirm;
      && (!confirmed ==> status == 400)
      && (confirmed && alias !in r.clusters ==> status == 404)
      && (confirmed && alias in r.clusters && sid !in r.sessions ==> status == 401)
      && (confirmed && alias in r.clusters && sid in r.sessions ==> status == 200)
  {}

  /** A switch that is answered with 200 puts the session, and no other, on the cluster that was confirmed, and keeps
      its user; any other answer changes nothing. */
  lemma SwitchMoves(r: Reg, sid: string, alias: string, confirm: string)
    ensures var q := Switch(sid, alias, confirm);
      var t := After(r, q);
      && (Status(r, q) != 200 ==> t == r)
      && (Status(r, q) == 200 ==>
            && SameClusters(r, t) && OtherSessionsStay(r, t, sid) && sid in r.sessions && sid in t.sessions
            && t.sessions[sid].active == alias && t.sessions[sid].user == r.sessions[sid].user)
  {}

  /** A login is answered with 200 or 401, and an authentic one opens a session of its user on the first cluster. */
  lemma LoginOpens(r: Reg, sid: string, user: string, authentic: bool)
    requires r.aliases != []
    ensures var q := Login(sid, user, authentic);
      var t := After(r, q);
      && Status(r, q) == (if authentic then 200 else 401) && (!authentic ==> t == r)
      && (authentic ==>
            && SameClusters(r, t) && OtherSessionsStay(r, t, sid) && sid in t.sessions
            && t.sessions[sid].user == user && t.sessions[sid].active == r.aliases[0])
  {}

  lemma LogoutCloses(r: Reg, sid: string)
    ensures var t := After(r, Logout(sid));
      && Status(r, Logout(sid)) == 204 && SameClusters(r, t) && OtherSessionsStay(r, t, sid) && sid !in t.sessions
  {}

  // ---------------------------------------------------------------- clusters, one request at a time

  ghost predicate CredentialsArrive(e: Envelope) { e != Broken && TrimSpace(e.user) != "" }

  /** No live cluster has the alias, whatever its case and the blanks around it. */
  ghost predicate Vacant(r: Reg, alias: string) {
    forall a :: a in r.clusters ==> !EqualFold(a, TrimSpace(alias))
  }

  /** When the creation of a cluster is answered with what. */
  lemma AddAnswers(r: Reg, alias: string, url: string, database: string, envelope: Envelope, w: World)
    ensures var status := Status(r, AddCluster(alias, url, database, envelope, w));
      && (!CredentialsArrive(envelope) || !Vacant(r, alias) ==> status == 400)
      && (CredentialsArrive(envelope) && Vacant(r, alias) ==>
            var reply := CreateReply(r.im, Input(alias, url, envelope.user, envelope.password, database), w);
            status == if reply.Ok? then 201 else 400)
  {}

  /** The live cluster with the URL, the database and the credentials that it was given. */
  ghost predicate LiveAs(c: Cluster, id: string, alias: string, url: string, database: string, user: string,
                         password: string) {
    && c.id == id && c.alias == alias && c.source == Platform && c.url == TrimSpace(url)
    && c.database == (if TrimSpace(database) == "" then "default" else TrimSpace(database))
    && c.client.url == c.url && c.client.database == c.database && c.client.user == user
    && c.client.password == password
  }

  /** Only the cluster at one alias is another. */
  ghost predicate OtherClustersStay(r: Reg, t: Reg, a: string) {
    && t.clusters.Keys == r.clusters.Keys + {a}
    && forall b :: b in r.clusters && b != a ==> t.clusters[b] == r.clusters[b]
  }

  /** A creation that is answered with 201 adds one record, one live cluster made of it, and its alias at the end of the
      list; any other answer changes nothing. */
  lemma AddAdds(r: Reg, alias: string, url: string, database: string, envelope: Envelope, w: World)
    ensures var q := AddCluster(alias, url, database, envelope, w);
      var t := After(r, q);
      && (Status(r, q) != 201 ==> t == r)
      && (Status(r, q) == 201 ==>
            var a := TrimSpace(alias);
            && envelope.Unsealed?
            && t.im == AfterCreate(r.im, Input(alias, url, envelope.user, envelope.password, database), w)
            && t.aliases == r.aliases + [a] && t.sessions == r.sessions && OtherClustersStay(r, t, a)
            && w.freshId.Some? && a in t.clusters
            && LiveAs(t.clusters[a], w.freshId.value, a, url, database, envelope.user, envelope.password))
  {}

  /** The request names a live cluster that came from the store, by its id. */
  ghost predicate Named(r: Reg, id: string, a: string) {
    id != "" && a in r.clusters && r.clusters[a].id == id && r.clusters[a].source == Platform
  }

  ghost predicate Unnamed(r: Reg, id: string) { forall a :: !Named(r, id, a) }

  lemma NamedIsFound(env: seq<Cluster>, r: Reg, id: string, a: string)
    requires Consistent(env, r) && Named(r, id, a)
    ensures Found(r, id) && Target(r, id) == Some(a) && r.clusters[a].alias == a
    ensures exists i :: 0 <= i < |r.im.mem| && i == IndexOf(r.im.mem, id) && r.im.mem[i].alias == a
  {
    assert IsTarget(r, id, a);
    TargetIsRecord(env, r, id, a);
    TargetIsRecord(env, r, id, Target(r, id).value);
    var i := FoundRecord(env, r, id);
  }

  lemma UnnamedIsNotFound(r: Reg, id: string)
    requires Unnamed(r, id)
    ensures !Found(r, id)
  {
    if Found(r, id) { assert Named(r, id, Target(r, id).value); }
  }

  /** When an edit is answered with what. */
  lemma EditAnswers(env: seq<Cluster>, r: Reg, q: Request, a: string)
    requires Consistent(env, r) && q.EditCluster?
    ensures q.renew && !CredentialsArrive(q.envelope) ==> Status(r, q) == 400 && After(r, q) == r
    ensures (q.renew ==> CredentialsArrive(q.envelope)) && Unnamed(r, q.id) ==> Status(r, q) == 404 && After(r, q) == r
    ensures (q.renew ==> CredentialsArrive(q.envelope)) && Named(r, q.id, a) ==>
      Status(r, q) == if UpdateReply(r.im, q.id, EditInput(q, a), q.renew, q.w).Ok? then 200 else 400
  {
    if Unnamed(r, q.id) { UnnamedIsNotFound(r, q.id); }
    if Named(r, q.id, a) { NamedIsFound(env, r, q.id, a); }
  }

  /** What the store is asked to change: the URL and the database of the request, under the alias that is there; and the
      credentials, when they are to be renewed. */
  lemma EditAsks(q: Request, a: string)
    requires q.EditCluster? && (q.renew ==> CredentialsArrive(q.envelope))
    ensures var input := EditInput(q, a);
      && input.alias == a && input.url == q.url && input.database == q.database
      && (q.renew ==> input.user == q.envelope.user && input.password == q.envelope.password)
      && (!q.renew ==> input.user == input.password == "")
  {}

  /** An edit that is answered with 200 changes one record and the live cluster made of it, and nothing else. */
  lemma EditChanges(env: seq<Cluster>, r: Reg, q: Request, a: string)
    requires Consistent(env, r) && q.EditCluster? && Named(r, q.id, a) && Status(r, q) == 200
    ensures var t, reply := After(r, q), UpdateReply(r.im, q.id, EditInput(q, a), q.renew, q.w);
      && t.im == AfterUpdate(r.im, q.id, EditInput(q, a), q.renew, q.w)
      && t.aliases == r.aliases && t.sessions == r.sessions && OtherClustersStay(r, t, a)
      && reply.Ok? && a in t.clusters
      && LiveAs(t.clusters[a], q.id, a, q.url, q.database, reply.value.user, reply.value.password)
  {
    NamedIsFound(env, r, q.id, a);
    var i := FoundRecord(env, r, q.id);
    assert r.im.mem[i].alias == a;
    EditedTells(r, q, a, i);
  }

  lemma EditedTells(r: Reg, q: Request, a: string, i: nat)
    requires q.EditCluster? && Found(r, q.id) && Target(r, q.id) == Some(a) && r.clusters[a].alias == a
      && r.clusters[a].id == q.id
    requires i == IndexOf(r.im.mem, q.id) < |r.im.mem| && r.im.mem[i].alias == a && Status(r, q) == 200
    ensures var t, reply := After(r, q), UpdateReply(r.im, q.id, EditInput(q, a), q.renew, q.w);
      && t.im == AfterUpdate(r.im, q.id, EditInput(q, a), q.renew, q.w)
      && t.aliases == r.aliases && t.sessions == r.sessions && OtherClustersStay(r, t, a)
      && reply.Ok? && a in t.clusters
      && LiveAs(t.clusters[a], q.id, a, q.url, q.database, reply.value.user, reply.value.password)
  {
    UpdatedRecord(r.im, q.id, EditInput(q, a), q.renew, q.w, i);
  }

  /** When a deletion is answered with what. */
  lemma DropAnswers(env: seq<Cluster>, r: Reg, id: string, w: World, a: string)
    requires Consistent(env, r)
    ensures Unnamed(r, id) ==> Status(r, DropCluster(id, w)) == 404
    ensures Named(r, id, a) ==>
      var busy := exists sid :: sid in r.sessions && r.sessions[sid].active == a;
      Status(r, DropCluster(id, w)) == if busy then 409 else if w.saveOk then 204 else 400
  {
    if Unnamed(r, id) { UnnamedIsNotFound(r, id); }
    if Named(r, id, a) { NamedIsFound(env, r, id, a); }
  }

  /** The list without one of its aliases. */
  ghost predicate OneLess(aliases: seq<string>, rest: seq<string>, a: string) {
    exists i :: 0 <= i < |aliases| && aliases[i] == a && rest == aliases[..i] + aliases[i + 1..]
  }

  lemma RemovedOne(aliases: seq<string>, a: string)
    requires a in aliases
    ensures OneLess(aliases, RemoveFirst(aliases, a), a)
  {
    var i := FirstAt(aliases, a);
    assert i < |aliases| && aliases[i] == a;
  }

  /** A deletion that is answered with 204 takes the live cluster, its alias and its record away, and nothing else; any
      other answer changes nothing. */
  lemma DropRemoves(env: seq<Cluster>, r: Reg, id: string, w: World, a: string)
    requires Consistent(env, r) && Named(r, id, a)
    ensures var q := DropCluster(id, w);
      var t := After(r, q);
      && (Status(r, q) != 204 ==> t == r)
      && (Status(r, q) == 204 ==>
            && t.im == AfterDelete(r.im, id, w) && t.sessions == r.sessions && t.clusters == r.clusters - {a}
            && OneLess(r.aliases, t.aliases, a))
  {
    NamedIsFound(env, r, id, a);
    assert a in r.aliases;
    DroppedTells(r, id, w, a);
  }

  lemma DroppedTells(r: Reg, id: string, w: World, a: string)
    requires Found(r, id) && Target(r, id) == Some(a) && r.clusters[a].alias == a && r.clusters[a].id == id
      && a in r.aliases
    ensures var q := DropCluster(id, w);
      var t := After(r, q);
      && (Status(r, q) != 204 ==> t == r)
      && (Status(r, q) == 204 ==>
            && t.im == AfterDelete(r.im, id, w) && t.sessions == r.sessions && t.clusters == r.clusters - {a}
            && OneLess(r.aliases, t.aliases, a))
  {
    RemovedOne(r.aliases, a);
  }

  // ---------------------------------------------------------------- sessions over whole runs

  /** The request opens the session. */
  predicate Enters(q: Request, sid: string) { q.Login? && q.sid == sid && q.authentic }

  predicate Leaves(q: Request, sid: string) { q.Logout? && q.sid == sid }

  /** The request puts the session on the cluster that it names. */
  predicate Moves(r: Reg, q: Request, sid: string) {
    q.Switch? && q.sid == sid && q.alias != "" && q.confirm == q.alias && q.alias in r.clusters
  }

  /** Request `n` is the last that opened the session, and it was not closed after that. */
  ghost predicate OpenedBy(qs: seq<Request>, sid: string, n: nat) {
    && n < |qs| && Enters(qs[n], sid)
    && forall k :: n < k < |qs| ==> !Enters(qs[k], sid) && !Leaves(qs[k], sid)
  }

  /** The last request of the run moves the session. */
  ghost predicate MovesLast(r: Reg, qs: seq<Request>, sid: string)
    requires qs != []
  {
    Moves(Registry.Run(r, qs[..|qs| - 1]), qs[|qs| - 1], sid)
  }

  /** Request `m` is the last that moved the session since request `n`, or it is request `n` and none did. */
  ghost predicate MovedBy(r: Reg, qs: seq<Request>, sid: string, n: nat, m: nat) {
    && n <= m < |qs|
    && if m == |qs| - 1 then m > n ==> MovesLast(r, qs, sid)
       else !MovesLast(r, qs, sid) && MovedBy(r, qs[..|qs| - 1], sid, n, m)
  }

  lemma {:induction false} MovedIsSwitch(r: Reg, qs: seq<Request>, sid: string, n: nat, m: nat)
    requires MovedBy(r, qs, sid, n, m) && m > n
    ensures qs[m].Switch? && qs[m].sid == sid && qs[m].confirm == qs[m].alias
    ensures qs[m].alias in Registry.Run(r, qs[..m]).clusters
  {
    if m < |qs| - 1 {
      MovedIsSwitch(r, qs[..|qs| - 1], sid, n, m);
      assert qs[..|qs| - 1][..m] == qs[..m];
    }
  }

  /** The user and the cluster of a session are those of the requests that opened and moved it. */
  ghost predicate Tells(env: seq<Cluster>, qs: seq<Request>, s: Session, n: nat, m: nat)
    requires env != [] && n <= m < |qs|
  {
    && qs[n].Login? && s.user == qs[n].user
    && if m > n then qs[m].Switch? && s.active == qs[m].alias else s.active == env[0].alias
  }

  lemma PrefixOf(qs: seq<Request>, last: nat)
    requires |qs| == last + 1
    ensures forall k :: 0 <= k < last ==> qs[..last][k] == qs[k] && qs[..last][..k] == qs[..k]
  {}

  /** What one request does to a session. */
  lemma SessionStep(env: seq<Cluster>, r: Reg, q: Request, sid: string)
    requires Consistent(env, r)
    ensures Enters(q, sid) ==>
      && sid in After(r, q).sessions && After(r, q).sessions[sid].user == q.user
      && After(r, q).sessions[sid].active == env[0].alias
    ensures Leaves(q, sid) ==> sid !in After(r, q).sessions
    ensures !Enters(q, sid) && !Leaves(q, sid) ==>
      && (sid in After(r, q).sessions <==> sid in r.sessions)
      && (sid in r.sessions ==>
            && After(r, q).sessions[sid].user == r.sessions[sid].user
            && After(r, q).sessions[sid].active == if Moves(r, q, sid) then q.alias else r.sessions[sid].active)
  {
    SessionStepAt(r, q, sid, env[0].alias);
  }

  lemma SessionStepAt(r: Reg, q: Request, sid: string, first: string)
    requires r.aliases != [] && r.aliases[0] == first
    ensures Enters(q, sid) ==>
      && sid in After(r, q).sessions && After(r, q).sessions[sid].user == q.user
      && After(r, q).sessions[sid].active == first
    ensures Leaves(q, sid) ==> sid !in After(r, q).sessions
    ensures !Enters(q, sid) && !Leaves(q, sid) ==>
      && (sid in After(r, q).sessions <==> sid in r.sessions)
      && (sid in r.sessions ==>
            && After(r, q).sessions[sid].user == r.sessions[sid].user
            && After(r, q).sessions[sid].active == if Moves(r, q, sid) then q.alias else r.sessions[sid].active)
  {}

  /** A login has opened the session, and no logout has closed it since. */
  ghost predicate IsOpen(qs: seq<Request>, sid: string) { exists n :: OpenedBy(qs, sid, n) }

  lemma OpenedNext(qs: seq<Request>, sid: string, n: nat)
    requires qs != [] && !Enters(qs[|qs| - 1], sid) && !Leaves(qs[|qs| - 1], sid)
    ensures OpenedBy(qs[..|qs| - 1], sid, n) <==> OpenedBy(qs, sid, n)
  {
    PrefixOf(qs, |qs| - 1);
  }

  lemma OpensHere(r: Reg, qs: seq<Request>, sid: string, last: nat)
    requires |qs| == last + 1 && Enters(qs[last], sid)
    ensures OpenedBy(qs, sid, last) && MovedBy(r, qs, sid, last, last)
  {}

  lemma LeavesHere(qs: seq<Request>, sid: string, n: nat)
    requires qs != [] && Leaves(qs[|qs| - 1], sid)
    ensures !OpenedBy(qs, sid, n)
  {}

  /** In every run, a session is there exactly when a login has opened it and no logout has closed it since. */
  lemma {:induction false} SessionsAreLogins(env: seq<Cluster>, r: Reg, qs: seq<Request>, sid: string)
    requires Consistent(env, r) && FreshIds(r, qs) && sid !in r.sessions
    ensures sid in Registry.Run(r, qs).sessions <==> IsOpen(qs, sid)
  {
    if qs != [] {
      var last := |qs| - 1;
      SessionsAreLogins(env, r, qs[..last], sid);
      RunKeepsRegistry(env, r, qs[..last]);
      SessionStep(env, Registry.Run(r, qs[..last]), qs[last], sid);
      LoginsNext(r, qs, sid);
    }
  }

  lemma LoginsNext(r: Reg, qs: seq<Request>, sid: string)
    requires qs != []
    ensures Enters(qs[|qs| - 1], sid) ==> IsOpen(qs, sid)
    ensures Leaves(qs[|qs| - 1], sid) ==> !IsOpen(qs, sid)
    ensures !Enters(qs[|qs| - 1], sid) && !Leaves(qs[|qs| - 1], sid) ==>
      (IsOpen(qs[..|qs| - 1], sid) <==> IsOpen(qs, sid))
  {
    var last := |qs| - 1;
    if Enters(qs[last], sid) {
      OpensHere(r, qs, sid, last);
    } else if Leaves(qs[last], sid) {
      forall n ensures !OpenedBy(qs, sid, n) { LeavesHere(qs, sid, n); }
    } else {
      forall n ensures OpenedBy(qs[..last], sid, n) <==> OpenedBy(qs, sid, n) { OpenedNext(qs, sid, n); }
    }
  }

  /** In every run, the user of a session is that of the login that opened it, and its cluster is the one of the last
      switch since then that was confirmed and found its cluster, or the first one if there was none. */
  lemma {:induction false} SessionStory(env: seq<Cluster>, r: Reg, qs: seq<Request>, sid: string)
      returns (n: nat, m: nat)
    requires Consistent(env, r) && FreshIds(r, qs) && sid !in r.sessions && sid in Registry.Run(r, qs).sessions
    ensures OpenedBy(qs, sid, n) && MovedBy(r, qs, sid, n, m) && Tells(env, qs, Registry.Run(r, qs).sessions[sid], n, m)
  {
    var last := |qs| - 1;
    RunKeepsRegistry(env, r, qs[..last]);
    SessionStep(env, Registry.Run(r, qs[..last]), qs[last], sid);
    if Enters(qs[last], sid) {
      n, m := last, last;
      OpensHere(r, qs, sid, last);
      return;
    }
    n, m := SessionStory(env, r, qs[..last], sid);
    OpenedNext(qs, sid, n);
    PrefixOf(qs, last);
    if MovesLast(r, qs, sid) { m := last; }
  }
}
