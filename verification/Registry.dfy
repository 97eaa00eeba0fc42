/** The cluster and session registry of internal/server/server.go over the encrypted store, and the start-up that
    builds it in cmd/console/main.go. */
module Registry {
  import opened SqlText
  import opened CaseFold
  import opened ClusterStore

  datatype Source = Environment | Platform

  /** What a ClickHouse client is made of. */
  datatype Client = Client(url: string, user: string, password: string, database: string)

  datatype Cluster = Cluster(id: string, alias: string, url: string, database: string, source: Source, client: Client)

  datatype Session = Session(user: string, active: string)

  /** The registry as a value, with the image of the store beside it. */
  datatype Reg = Reg(clusters: map<string, Cluster>, aliases: seq<string>, sessions: map<string, Session>, im: Image)

  /** The credentials of a request once the transport encryption is taken off. */
  datatype Envelope = Unsealed(user: string, password: string) | Broken

  /** decryptCredentials */
  predicate Usable(e: Envelope) { e.Unsealed? && TrimSpace(e.user) != "" }

  function PlatformCluster(id: string, alias: string, url: string, database: string, user: string,
                           password: string): Cluster {
    Cluster(id, alias, url, database, Platform, Client(url, user, password, database))
  }

  // ---------------------------------------------------------------- the requests

  datatype Request =
    | Login(sid: string, user: string, authentic: bool)
    | Logout(sid: string)
    | Switch(sid: string, alias: string, confirm: string)
    | AddCluster(alias: string, url: string, database: string, envelope: Envelope, w: World)
    | EditCluster(id: string, url: string, database: string, renew: bool, envelope: Envelope, w: World)
    | DropCluster(id: string, w: World)

  ghost predicate IsTarget(r: Reg, id: string, alias: string) {
    alias in r.clusters && r.clusters[alias].id == id && r.clusters[alias].source == Platform
  }

  /** The platform cluster with an id; the search goes over the map in no particular order. */
  ghost function Target(r: Reg, id: string): (t: Option<string>)
    ensures t.Some? ==> IsTarget(r, id, t.value)
    ensures t.None? ==> forall a :: !IsTarget(r, id, a)
  {
    if exists a :: IsTarget(r, id, a) then
      var a :| IsTarget(r, id, a);
      Some(a)
    else None
  }

  predicate InUse(clusters: map<string, Cluster>, alias: string) {
    exists a :: a in clusters && EqualFold(a, TrimSpace(alias))
  }

  predicate Active(sessions: map<string, Session>, alias: string) {
    exists sid :: sid in sessions && sessions[sid].active == alias
  }

  function FirstAt(aliases: seq<string>, alias: string): (i: nat)
    ensures i <= |aliases| && (forall k :: 0 <= k < i ==> aliases[k] != alias)
      && (i < |aliases| ==> aliases[i] == alias)
  {
    if aliases == [] then 0 else if aliases[0] == alias then 0 else 1 + FirstAt(aliases[1..], alias)
  }

  function RemoveFirst(aliases: seq<string>, alias: string): seq<string> {
    var i := FirstAt(aliases, alias);
    if i < |aliases| then aliases[..i] + aliases[i + 1..] else aliases
  }

  function AddInput(q: Request): Input
    requires q.AddCluster? && q.envelope.Unsealed?
  {
    Input(q.alias, q.url, q.envelope.user, q.envelope.password, q.database)
  }

  function EditInput(q: Request, alias: string): Input
    requires q.EditCluster? && (q.renew ==> q.envelope.Unsealed?)
  {
    Input(alias, q.url, if q.renew then q.envelope.user else "", if q.renew then q.envelope.password else "",
          q.database)
  }

  ghost predicate Found(r: Reg, id: string) { Target(r, id).Some? && id != "" }

  /** The HTTP status that a request is answered with. */
  ghost function Status(r: Reg, q: Request): int {
    match q
    case Login(_, _, authentic) => if authentic then 200 else 401
    case Logout(_) => 204
    case Switch(sid, alias, confirm) =>
      if alias == "" || confirm != alias then 400
      else if alias !in r.clusters then 404
      else if sid !in r.sessions then 401
      else 200
    case AddCluster(alias, _, _, envelope, w) =>
      if !Usable(envelope) || InUse(r.clusters, alias) || CreateReply(r.im, AddInput(q), w).Err? then 400 else 201
    case EditCluster(id, _, _, renew, envelope, w) =>
      if renew && !Usable(envelope) then 400
      else if !Found(r, id) then 404
      else
        var current := r.clusters[Target(r, id).value];
        if UpdateReply(r.im, current.id, EditInput(q, current.alias), renew, w).Err? then 400 else 200
    case DropCluster(id, w) =>
      if !Found(r, id) then 404
      else
        var target := r.clusters[Target(r, id).value];
        if Active(r.sessions, target.alias) then 409
        else if DeleteReply(r.im, target.id, w).Some? then 400
        else 204
  }

  ghost function Added(r: Reg, q: Request): Reg
    requires q.AddCluster? && Status(r, q) == 201
  {
    var item := CreateReply(r.im, AddInput(q), q.w).value;
    Reg(r.clusters[item.alias :=
          PlatformCluster(item.id, item.alias, item.url, item.database, q.envelope.user, q.envelope.password)],
        r.aliases + [item.alias], r.sessions, AfterCreate(r.im, AddInput(q), q.w))
  }

  ghost function Edited(r: Reg, q: Request): Reg
    requires q.EditCluster? && Found(r, q.id) && (q.renew ==> Usable(q.envelope))
  {
    var current := r.clusters[Target(r, q.id).value];
    var input := EditInput(q, current.alias);
    var reply := UpdateReply(r.im, current.id, input, q.renew, q.w);
    var im := AfterUpdate(r.im, current.id, input, q.renew, q.w);
    if reply.Err? then r.(im := im)
    else
      var c := reply.value;
      r.(im := im,
         clusters := r.clusters[current.alias := PlatformCluster(c.id, c.alias, c.url, c.database, c.user, c.password)])
  }

  ghost function Dropped(r: Reg, q: Request): Reg
    requires q.DropCluster? && Status(r, q) == 204
  {
    var target := r.clusters[Target(r, q.id).value];
    Reg(r.clusters - {target.alias}, RemoveFirst(r.aliases, target.alias), r.sessions,
        AfterDelete(r.im, target.id, q.w))
  }

  ghost function After(r: Reg, q: Request): Reg {
    match q
    case Login(sid, user, authentic) =>
      if authentic && r.aliases != [] then r.(sessions := r.sessions[sid := Session(user, r.aliases[0])]) else r
    case Logout(sid) => r.(sessions := r.sessions - {sid})
    case Switch(sid, alias, _) =>
      if Status(r, q) == 200 then r.(sessions := r.sessions[sid := r.sessions[sid].(active := alias)]) else r
    case AddCluster(_, _, _, _, _) => if Status(r, q) == 201 then Added(r, q) else r
    case EditCluster(_, _, _, renew, envelope, _) =>
      if (renew && !Usable(envelope)) || !Found(r, q.id) then r else Edited(r, q)
    case DropCluster(_, _) => if Status(r, q) == 204 then Dropped(r, q) else r
  }

  // ---------------------------------------------------------------- consistency

  /** The alias list is the environment's aliases followed by those of the stored records, in order. */
  ghost predicate Listed(env: seq<Cluster>, aliases: seq<string>, mem: seq<Record>) {
    && |aliases| == |env| + |mem|
    && (forall k :: 0 <= k < |env| ==> aliases[k] == env[k].alias)
    && (forall k :: 0 <= k < |mem| ==> aliases[|env| + k] == mem[k].alias)
  }

  ghost predicate Keyed(clusters: map<string, Cluster>, aliases: seq<string>) {
    (forall a :: a in clusters ==> a in aliases) && (forall k :: 0 <= k < |aliases| ==> aliases[k] in clusters)
  }

  /** No alias twice, whatever its case. */
  ghost predicate Unique(aliases: seq<string>) {
    forall i, j :: 0 <= i < j < |aliases| ==> !EqualFold(aliases[i], aliases[j])
  }

  ghost predicate Fixed(env: seq<Cluster>, clusters: map<string, Cluster>) {
    forall k :: 0 <= k < |env| ==>
      env[k].source == Environment && env[k].alias in clusters && clusters[env[k].alias] == env[k]
  }

  /** A live cluster belongs to a stored record. */
  ghost predicate LinkedTo(c: Cluster, item: Record) {
    c.id == item.id && c.alias == item.alias && c.source == Platform
  }

  ghost predicate Linked(clusters: map<string, Cluster>, mem: seq<Record>) {
    forall k :: 0 <= k < |mem| ==> mem[k].alias in clusters && LinkedTo(clusters[mem[k].alias], mem[k])
  }

  /** A live cluster and its stored record: equal but for blanks around the user name. */
  ghost predicate Mirrors(c: Cluster, item: Record) {
    && LinkedTo(c, item) && c.url == item.url && c.database == item.database
    && c.client.url == item.url && c.client.database == item.database
    && item.credentials.Sealed? && c.client.password == item.credentials.password
    && TrimSpace(c.client.user) == item.credentials.user
  }

  ghost predicate Mirrored(clusters: map<string, Cluster>, mem: seq<Record>) {
    forall k :: 0 <= k < |mem| ==> mem[k].alias in clusters && Mirrors(clusters[mem[k].alias], mem[k])
  }

  ghost predicate Present(sessions: map<string, Session>, clusters: map<string, Cluster>) {
    forall sid :: sid in sessions ==> sessions[sid].active in clusters
  }

  ghost predicate GoodIds(mem: seq<Record>) {
    && (forall i, j :: 0 <= i < j < |mem| ==> mem[i].id != mem[j].id)
    && (forall k :: 0 <= k < |mem| ==> mem[k].id != "")
  }

  ghost predicate Consistent(env: seq<Cluster>, r: Reg) {
    && env != [] && Listed(env, r.aliases, r.im.mem) && Keyed(r.clusters, r.aliases) && Unique(r.aliases)
    && Fixed(env, r.clusters) && Linked(r.clusters, r.im.mem) && Readable(r.im.mem)
    && Present(r.sessions, r.clusters) && GoodIds(r.im.mem)
  }

  /** The live registry, the records in memory and the disk agree. */
  ghost predicate Agree(r: Reg) { Mirrored(r.clusters, r.im.mem) && r.im.mem == r.im.disk }

  /** A random id is not empty and not in use. */
  ghost predicate FreshId(r: Reg, q: Request) {
    q.AddCluster? && q.w.freshId.Some? ==>
      q.w.freshId.value != "" && forall k :: 0 <= k < |r.im.mem| ==> r.im.mem[k].id != q.w.freshId.value
  }

  lemma UniqueKeys(aliases: seq<string>, i: nat, j: nat)
    requires Unique(aliases) && i < |aliases| && j < |aliases| && aliases[i] == aliases[j]
    ensures i == j
  {}

  lemma {:induction false} FirstAtIs(aliases: seq<string>, i: nat)
    requires Unique(aliases) && i < |aliases|
    ensures FirstAt(aliases, aliases[i]) == i
  {
    UniqueKeys(aliases, FirstAt(aliases, aliases[i]), i);
  }

  /** The search by id finds exactly the cluster of the record with that id. */
  lemma TargetIsRecord(env: seq<Cluster>, r: Reg, id: string, a: string)
    requires Consistent(env, r)
    ensures var i := IndexOf(r.im.mem, id);
      IsTarget(r, id, a) <==> i < |r.im.mem| && a == r.im.mem[i].alias
  {
    var mem := r.im.mem;
    if IsTarget(r, id, a) {
      var k := PlatformRecord(env, r, a);
      assert LinkedTo(r.clusters[a], mem[k]);
      assert IndexOf(mem, id) == k;
    }
  }

  lemma PlatformRecord(env: seq<Cluster>, r: Reg, a: string) returns (k: nat)
    requires Consistent(env, r) && a in r.clusters && r.clusters[a].source == Platform
    ensures k < |r.im.mem| && r.im.mem[k].alias == a
  {
    var i :| 0 <= i < |r.aliases| && r.aliases[i] == a;
    assert forall j :: 0 <= j < |env| ==>
      r.aliases[j] == env[j].alias && r.clusters[env[j].alias].source == Environment;
    k := i - |env|;
    assert r.aliases[|env| + k] == r.im.mem[k].alias;
  }

  lemma FoundRecord(env: seq<Cluster>, r: Reg, id: string) returns (i: nat)
    requires Consistent(env, r) && Target(r, id).Some?
    ensures i == IndexOf(r.im.mem, id) < |r.im.mem|
    ensures var item, current := r.im.mem[i], r.clusters[Target(r, id).value];
      Target(r, id).value == item.alias == current.alias && current.id == item.id == id
  {
    i := IndexOf(r.im.mem, id);
    TargetIsRecord(env, r, id, Target(r, id).value);
    assert LinkedTo(r.clusters[r.im.mem[i].alias], r.im.mem[i]);
  }

  lemma OwnAliases(env: seq<Cluster>, aliases: seq<string>, mem: seq<Record>, i: nat)
    requires Listed(env, aliases, mem) && Unique(aliases) && i < |mem|
    ensures forall k :: 0 <= k < |env| ==> env[k].alias != mem[i].alias
    ensures forall k :: 0 <= k < |mem| && k != i ==> mem[k].alias != mem[i].alias
  {
    assert forall k :: 0 <= k < |aliases| && k != |env| + i ==> !EqualFold(aliases[k], aliases[|env| + i]);
    assert forall k :: 0 <= k < |mem| ==> aliases[|env| + k] == mem[k].alias;
  }

  // ---------------------------------------------------------------- a cluster is added

  lemma AppendedNames(clusters: map<string, Cluster>, aliases: seq<string>, alias: string, c: Cluster)
    requires Keyed(clusters, aliases) && Unique(aliases)
    requires forall k :: 0 <= k < |aliases| ==> !EqualFold(aliases[k], alias)
    ensures Keyed(clusters[alias := c], aliases + [alias]) && Unique(aliases + [alias])
  {
    assert forall a :: a in aliases + [alias] <==> a in aliases || a == alias;
  }

  lemma AppendedListed(env: seq<Cluster>, aliases: seq<string>, mem: seq<Record>, item: Record)
    requires Listed(env, aliases, mem)
    ensures Listed(env, aliases + [item.alias], mem + [item])
  {}

  lemma AppendedLinks(env: seq<Cluster>, clusters: map<string, Cluster>, mem: seq<Record>, item: Record, c: Cluster)
    requires item.alias !in clusters && Linked(clusters, mem) && Fixed(env, clusters) && LinkedTo(c, item)
    ensures Linked(clusters[item.alias := c], mem + [item]) && Fixed(env, clusters[item.alias := c])
  {}

  lemma AppendedRecords(mem: seq<Record>, item: Record)
    requires GoodIds(mem) && item.id != "" && forall k :: 0 <= k < |mem| ==> mem[k].id != item.id
    requires Readable(mem) && item.credentials.Sealed?
    ensures GoodIds(mem + [item]) && Readable(mem + [item])
  {}

  lemma AppendedIsConsistent(env: seq<Cluster>, r: Reg, item: Record, c: Cluster, im: Image)
    requires Consistent(env, r) && LinkedTo(c, item) && item.id != "" && item.credentials.Sealed?
    requires im.mem == r.im.mem + [item]
    requires forall k :: 0 <= k < |r.im.mem| ==> r.im.mem[k].id != item.id
    requires forall k :: 0 <= k < |r.aliases| ==> !EqualFold(r.aliases[k], item.alias)
    ensures Consistent(env, Reg(r.clusters[item.alias := c], r.aliases + [item.alias], r.sessions, im))
    ensures item.alias !in r.clusters
  {
    assert item.alias !in r.clusters;
    AppendedNames(r.clusters, r.aliases, item.alias, c);
    AppendedListed(env, r.aliases, r.im.mem, item);
    AppendedLinks(env, r.clusters, r.im.mem, item, c);
    AppendedRecords(r.im.mem, item);
  }

  lemma AppendedMirrors(clusters: map<string, Cluster>, mem: seq<Record>, item: Record, c: Cluster)
    requires item.alias !in clusters && Mirrored(clusters, mem) && Mirrors(c, item)
    ensures Mirrored(clusters[item.alias := c], mem + [item])
  {}

  lemma AddedIsConsistent(env: seq<Cluster>, r: Reg, q: Request)
    requires Consistent(env, r) && FreshId(r, q) && q.AddCluster? && Status(r, q) == 201
    ensures Consistent(env, Added(r, q)) && (Agree(r) ==> Agree(Added(r, q)))
  {
    var item := CreateReply(r.im, AddInput(q), q.w).value;
    var c := PlatformCluster(item.id, item.alias, item.url, item.database, q.envelope.user, q.envelope.password);
    AppendedIsConsistent(env, r, item, c, AfterCreate(r.im, AddInput(q), q.w));
    if Agree(r) { AppendedMirrors(r.clusters, r.im.mem, item, c); }
  }

  // ---------------------------------------------------------------- a cluster is edited

  /** An edit that fails to seal new credentials and leaves the record changed. */
  ghost predicate HalfDone(r: Reg, q: Request) {
    && q.EditCluster? && q.renew && Usable(q.envelope) && Found(r, q.id)
    && var current := r.clusters[Target(r, q.id).value];
       var input := EditInput(q, current.alias);
       Leaks(r.im, current.id, input, true, q.w)
       && Touched(r.im.mem[IndexOf(r.im.mem, current.id)], input) != r.im.mem[IndexOf(r.im.mem, current.id)]
  }

  lemma ReplacedIsConsistent(env: seq<Cluster>, r: Reg, i: nat, item: Record, c: Cluster, im: Image)
    requires Consistent(env, r) && i < |r.im.mem| && im.mem == r.im.mem[i := item]
    requires item.alias == r.im.mem[i].alias && item.id == r.im.mem[i].id && LinkedTo(c, item)
      && item.credentials.Sealed?
    ensures Consistent(env, r.(im := im, clusters := r.clusters[item.alias := c]))
  {
    OwnAliases(env, r.aliases, r.im.mem, i);
    assert r.aliases[|env| + i] == item.alias;
  }

  lemma ReplacedMirrors(env: seq<Cluster>, r: Reg, i: nat, item: Record, c: Cluster)
    requires Consistent(env, r) && i < |r.im.mem| && item.alias == r.im.mem[i].alias
    requires Mirrored(r.clusters, r.im.mem) && Mirrors(c, item)
    ensures Mirrored(r.clusters[item.alias := c], r.im.mem[i := item])
  {
    OwnAliases(env, r.aliases, r.im.mem, i);
  }

  lemma OpenedUser(r: Reg, i: nat)
    requires Mirrored(r.clusters, r.im.mem) && i < |r.im.mem|
    ensures r.im.mem[i].credentials.Sealed? && TrimSpace(r.im.mem[i].credentials.user) == r.im.mem[i].credentials.user
  {
    TrimFixed(TrimSpace(r.clusters[r.im.mem[i].alias].client.user));
  }

  /** What the branches of updateCluster need to know about the cluster it has found. */
  ghost predicate Editing(env: seq<Cluster>, r: Reg, q: Request, i: nat) { Consistent(env, r) && EditingAt(r, q, i) }

  ghost predicate EditingAt(r: Reg, q: Request, i: nat) {
    && q.EditCluster? && Found(r, q.id) && (q.renew ==> Usable(q.envelope))
    && i == IndexOf(r.im.mem, q.id) < |r.im.mem|
    && var current := r.clusters[Target(r, q.id).value];
       current.alias == r.im.mem[i].alias && current.id == q.id
  }

  /** What a successful edit makes of the record and of the live cluster. */
  lemma EditedShape(r: Reg, q: Request, i: nat) returns (next: Record, live: Cluster)
    requires EditingAt(r, q, i) && UpdateReply(r.im, q.id, EditInput(q, r.im.mem[i].alias), q.renew, q.w).Ok?
    ensures next == Updated(r.im.mem[i], EditInput(q, r.im.mem[i].alias), q.renew, q.w.now)
    ensures next.credentials.Sealed? && live == FromRecord(next) && LinkedTo(live, next)
    ensures var mem := r.im.mem[i := next];
      Edited(r, q) == r.(im := Image(mem, mem), clusters := r.clusters[next.alias := live])
  {
    var input := EditInput(q, r.im.mem[i].alias);
    var c := UpdateReply(r.im, q.id, input, q.renew, q.w).value;
    next := Updated(r.im.mem[i], input, q.renew, q.w.now);
    live := PlatformCluster(c.id, c.alias, c.url, c.database, c.user, c.password);
  }

  lemma EditMirrors(r: Reg, i: nat, input: Input, renew: bool, now: int, next: Record)
    requires Mirrored(r.clusters, r.im.mem) && i < |r.im.mem| && next == Updated(r.im.mem[i], input, renew, now)
    requires next.credentials.Sealed?
    ensures Mirrors(FromRecord(next), next)
  {
    TrimFixed(TrimSpace(input.user));
    OpenedUser(r, i);
  }

  lemma EditSucceeds(env: seq<Cluster>, r: Reg, q: Request, i: nat)
    requires Editing(env, r, q, i) && UpdateReply(r.im, q.id, EditInput(q, r.im.mem[i].alias), q.renew, q.w).Ok?
    ensures Consistent(env, Edited(r, q)) && (Agree(r) ==> Agree(Edited(r, q)))
  {
    var next, live := EditedShape(r, q, i);
    ReplacedIsConsistent(env, r, i, next, live, Edited(r, q).im);
    if Agree(r) {
      EditMirrors(r, i, EditInput(q, r.im.mem[i].alias), q.renew, q.w.now, next);
      ReplacedMirrors(env, r, i, next, live);
    }
  }

  lemma FailedUpdate(im: Image, id: string, input: Input, renew: bool, w: World, i: nat)
    requires i == IndexOf(im.mem, id) < |im.mem| && im.mem[i].credentials.Sealed?
    requires UpdateReply(im, id, input, renew, w).Err?
    ensures var t := AfterUpdate(im, id, input, renew, w);
      && t.disk == im.disk
      && t.mem == im.mem[i := if renew && Leaks(im, id, input, true, w) then Touched(im.mem[i], input) else im.mem[i]]
  {}

  lemma SameNames(env: seq<Cluster>, r: Reg, i: nat, item: Record)
    requires Consistent(env, r) && i < |r.im.mem|
    requires item.id == r.im.mem[i].id && item.alias == r.im.mem[i].alias && item.credentials == r.im.mem[i].credentials
    ensures Consistent(env, r.(im := r.im.(mem := r.im.mem[i := item])))
  {
    OwnAliases(env, r.aliases, r.im.mem, i);
  }

  /** A failed edit changes the registry only by what it leaves behind in the records. */
  lemma EditFails(env: seq<Cluster>, r: Reg, q: Request, i: nat)
    requires Editing(env, r, q, i) && UpdateReply(r.im, q.id, EditInput(q, r.im.mem[i].alias), q.renew, q.w).Err?
    ensures Consistent(env, Edited(r, q)) && (Agree(r) ==> (Agree(Edited(r, q)) <==> !HalfDone(r, q)))
  {
    var t := Edited(r, q);
    FailedUpdate(r.im, q.id, EditInput(q, r.im.mem[i].alias), q.renew, q.w, i);
    SameNames(env, r, i, t.im.mem[i]);
    assert t == r.(im := r.im.(mem := r.im.mem[i := t.im.mem[i]]));
    assert t.im.mem == r.im.mem <==> t.im.mem[i] == r.im.mem[i];
  }

  lemma EditedIsConsistent(env: seq<Cluster>, r: Reg, q: Request)
    requires Consistent(env, r) && q.EditCluster? && Found(r, q.id) && (q.renew ==> Usable(q.envelope))
    ensures Consistent(env, Edited(r, q)) && (Agree(r) ==> (Agree(Edited(r, q)) <==> !HalfDone(r, q)))
  {
    var i := FoundRecord(env, r, q.id);
    if UpdateReply(r.im, q.id, EditInput(q, r.im.mem[i].alias), q.renew, q.w).Ok? {
      EditSucceeds(env, r, q, i);
    } else {
      EditFails(env, r, q, i);
    }
  }

  // ---------------------------------------------------------------- a cluster is dropped

  /** `t` is `s` without the element at `i`. */
  ghost predicate Gap<T>(s: seq<T>, t: seq<T>, i: nat) {
    && i < |s| == |t| + 1
    && (forall k :: 0 <= k < |t| ==> t[k] == s[if k < i then k else k + 1])
    && (forall k :: 0 <= k < |s| && k != i ==> s[k] in t)
  }

  lemma GapOf<T>(s: seq<T>, i: nat)
    requires i < |s|
    ensures Gap(s, s[..i] + s[i + 1..], i)
  {
    var t := s[..i] + s[i + 1..];
    forall k | 0 <= k < |s| && k != i
      ensures s[k] in t
    {
      assert t[if k < i then k else k - 1] == s[k];
    }
  }

  lemma RemovedNames(clusters: map<string, Cluster>, aliases: seq<string>, rest: seq<string>, i: nat)
    requires Keyed(clusters, aliases) && Unique(aliases) && Gap(aliases, rest, i)
    ensures Keyed(clusters - {aliases[i]}, rest) && Unique(rest)
  {
    assert forall k :: 0 <= k < |aliases| && k != i ==> !EqualFold(aliases[k], aliases[i]);
  }

  lemma RemovedListed(env: seq<Cluster>, aliases: seq<string>, mem: seq<Record>, i: nat, rest: seq<string>,
                      mem': seq<Record>)
    requires Listed(env, aliases, mem) && GoodIds(mem) && Readable(mem)
    requires Gap(aliases, rest, |env| + i) && Gap(mem, mem', i)
    ensures Listed(env, rest, mem') && GoodIds(mem') && Readable(mem')
  {}

  lemma RemovedLinks(env: seq<Cluster>, clusters: map<string, Cluster>, aliases: seq<string>, mem: seq<Record>, i: nat,
                     mem': seq<Record>)
    requires Listed(env, aliases, mem) && Unique(aliases) && Linked(clusters, mem) && Fixed(env, clusters)
      && Gap(mem, mem', i)
    ensures Linked(clusters - {mem[i].alias}, mem') && Fixed(env, clusters - {mem[i].alias})
    ensures Mirrored(clusters, mem) ==> Mirrored(clusters - {mem[i].alias}, mem')
  {
    OwnAliases(env, aliases, mem, i);
  }

  lemma RemovedPresent(sessions: map<string, Session>, clusters: map<string, Cluster>, alias: string)
    requires Present(sessions, clusters) && !Active(sessions, alias)
    ensures Present(sessions, clusters - {alias})
  {}

  lemma RemovedIsConsistent(env: seq<Cluster>, r: Reg, i: nat, rest: seq<string>, mem: seq<Record>)
    requires Consistent(env, r) && Gap(r.im.mem, mem, i) && Gap(r.aliases, rest, |env| + i)
    requires !Active(r.sessions, r.im.mem[i].alias)
    ensures var t := Reg(r.clusters - {r.im.mem[i].alias}, rest, r.sessions, Image(mem, mem));
      Consistent(env, t) && (Agree(r) ==> Agree(t))
  {
    assert r.aliases[|env| + i] == r.im.mem[i].alias;
    RemovedListed(env, r.aliases, r.im.mem, i, rest, mem);
    RemovedPresent(r.sessions, r.clusters, r.im.mem[i].alias);
    RemovedLinks(env, r.clusters, r.aliases, r.im.mem, i, mem);
    RemovedNames(r.clusters, r.aliases, rest, |env| + i);
  }

  lemma FirstRemoved(aliases: seq<string>, i: nat)
    requires Unique(aliases) && i < |aliases|
    ensures Gap(aliases, RemoveFirst(aliases, aliases[i]), i)
  {
    FirstAtIs(aliases, i);
    GapOf(aliases, i);
  }

  lemma DroppedGaps(env: seq<Cluster>, r: Reg, i: nat)
    requires Listed(env, r.aliases, r.im.mem) && Unique(r.aliases) && i < |r.im.mem|
    ensures Gap(r.im.mem, Without(r.im.mem, i), i)
    ensures Gap(r.aliases, RemoveFirst(r.aliases, r.im.mem[i].alias), |env| + i)
  {
    GapOf(r.im.mem, i);
    assert r.aliases[|env| + i] == r.im.mem[i].alias;
    FirstRemoved(r.aliases, |env| + i);
  }

  /** What a successful deletion leaves. */
  lemma DroppedShape(env: seq<Cluster>, r: Reg, q: Request, i: nat)
    requires Consistent(env, r) && q.DropCluster? && Status(r, q) == 204 && i == IndexOf(r.im.mem, q.id)
    ensures i < |r.im.mem| && !Active(r.sessions, r.im.mem[i].alias)
    ensures var mem, alias := Without(r.im.mem, i), r.im.mem[i].alias;
      Dropped(r, q) == Reg(r.clusters - {alias}, RemoveFirst(r.aliases, alias), r.sessions, Image(mem, mem))
  {
    var _ := FoundRecord(env, r, q.id);
  }

  lemma DroppedIsConsistent(env: seq<Cluster>, r: Reg, q: Request)
    requires Consistent(env, r) && q.DropCluster? && Status(r, q) == 204
    ensures Consistent(env, Dropped(r, q)) && (Agree(r) ==> Agree(Dropped(r, q)))
  {
    var i := IndexOf(r.im.mem, q.id);
    DroppedShape(env, r, q, i);
    DroppedGaps(env, r, i);
    RemovedIsConsistent(env, r, i, RemoveFirst(r.aliases, r.im.mem[i].alias), Without(r.im.mem, i));
  }

  // ---------------------------------------------------------------- every run

  lemma SessionsStayPresent(env: seq<Cluster>, r: Reg, q: Request)
    requires Consistent(env, r) && (q.Login? || q.Logout? || q.Switch?)
    ensures Consistent(env, After(r, q)) && (Agree(r) ==> Agree(After(r, q)))
  {
    assert r.aliases[0] in r.clusters;
  }

  /** One request: the registry stays consistent, whatever its answer. If the live clusters, the records and the
      disk agreed before, they agree afterwards exactly when the request is not an edit that stops half-way for want
      of encryption. */
  lemma RequestKeepsRegistry(env: seq<Cluster>, r: Reg, q: Request)
    requires Consistent(env, r) && FreshId(r, q)
    ensures Consistent(env, After(r, q))
    ensures Agree(r) ==> (Agree(After(r, q)) <==> !HalfDone(r, q))
  {
    match q {
      case AddCluster(_, _, _, _, _) => if Status(r, q) == 201 { AddedIsConsistent(env, r, q); }
      case EditCluster(_, _, _, renew, envelope, _) =>
        if (renew ==> Usable(envelope)) && Found(r, q.id) { EditedIsConsistent(env, r, q); }
      case DropCluster(_, _) => if Status(r, q) == 204 { DroppedIsConsistent(env, r, q); }
      case Login(_, _, _) => SessionsStayPresent(env, r, q);
      case Logout(_) => SessionsStayPresent(env, r, q);
      case Switch(_, _, _) => SessionsStayPresent(env, r, q);
    }
  }

  ghost function Run(r: Reg, qs: seq<Request>): Reg {
    if qs == [] then r else After(Run(r, qs[..|qs| - 1]), qs[|qs| - 1])
  }

  lemma RunNext(r: Reg, qs: seq<Request>, q: Request)
    ensures Run(r, []) == r && Run(r, qs + [q]) == After(Run(r, qs), q)
  {
    assert (qs + [q])[..|qs|] == qs;
  }

  ghost predicate FreshIds(r: Reg, qs: seq<Request>) {
    qs != [] ==>
      var init := qs[..|qs| - 1];
      FreshIds(r, init) && FreshId(Run(r, init), qs[|qs| - 1])
  }

  ghost predicate NoneHalfDone(r: Reg, qs: seq<Request>) {
    qs != [] ==>
      var init := qs[..|qs| - 1];
      NoneHalfDone(r, init) && !HalfDone(Run(r, init), qs[|qs| - 1])
  }

  /** After every request of the run, the live clusters, the records and the disk agree. */
  ghost predicate AlwaysAgrees(r: Reg, qs: seq<Request>) {
    Agree(Run(r, qs)) && (qs != [] ==> AlwaysAgrees(r, qs[..|qs| - 1]))
  }

  /** Every run of logins, logouts, switches, creations, edits and deletions, with saves failing at will, keeps the
      registry consistent, and keeps it in agreement with the store throughout exactly when it begins in agreement and
      no edit stops half-way. */
  lemma {:induction false} RunKeepsRegistry(env: seq<Cluster>, r: Reg, qs: seq<Request>)
    requires Consistent(env, r) && FreshIds(r, qs)
    ensures Consistent(env, Run(r, qs))
    ensures AlwaysAgrees(r, qs) <==> Agree(r) && NoneHalfDone(r, qs)
  {
    if qs != [] {
      var init, last := qs[..|qs| - 1], qs[|qs| - 1];
      RunKeepsRegistry(env, r, init);
      RequestKeepsRegistry(env, Run(r, init), last);
    }
  }

  /** In every run new sessions start on the same environment cluster, no matter when the alias list is read, and
      the cluster that a session works on is always there. */
  lemma RunServesSessions(env: seq<Cluster>, r: Reg, qs: seq<Request>, sid: string)
    requires Consistent(env, r) && FreshIds(r, qs)
    ensures var t := Run(r, qs);
      && t.aliases != [] && t.aliases[0] == r.aliases[0] == env[0].alias
      && env[0].alias in t.clusters && t.clusters[env[0].alias] == env[0]
      && (sid in t.sessions ==> t.sessions[sid].active in t.clusters)
  {
    RunKeepsRegistry(env, r, qs);
  }

  // ---------------------------------------------------------------- start-up

  /** The live cluster that start-up makes of a record. */
  function FromRecord(item: Record): Cluster
    requires item.credentials.Sealed?
  {
    PlatformCluster(item.id, item.alias, item.url, item.database, item.credentials.user, item.credentials.password)
  }

  ghost function AllClusters(env: seq<Cluster>, mem: seq<Record>): (cs: seq<Cluster>)
    requires Readable(mem)
    ensures |cs| == |env| + |mem|
  {
    env + seq(|mem|, k requires 0 <= k < |mem| => FromRecord(mem[k]))
  }

  function AliasesOf(cs: seq<Cluster>): (r: seq<string>)
    ensures |r| == |cs|
  {
    seq(|cs|, k requires 0 <= k < |cs| => cs[k].alias)
  }

  function ByAlias(cs: seq<Cluster>): map<string, Cluster> {
    if cs == [] then map[] else ByAlias(cs[..|cs| - 1])[cs[|cs| - 1].alias := cs[|cs| - 1]]
  }

  lemma AliasesStep(cs: seq<Cluster>)
    requires cs != []
    ensures AliasesOf(cs) == AliasesOf(cs[..|cs| - 1]) + [cs[|cs| - 1].alias]
  {}

  lemma KeyedStep(m: map<string, Cluster>, aliases: seq<string>, alias: string, c: Cluster)
    requires Keyed(m, aliases)
    ensures Keyed(m[alias := c], aliases + [alias])
  {
    var next := aliases + [alias];
    assert next[|aliases|] == alias;
    forall a | a in aliases
      ensures a in next
    {
      var k :| 0 <= k < |aliases| && aliases[k] == a;
      assert next[k] == a;
    }
  }

  lemma {:induction false} ByAliasKeyed(cs: seq<Cluster>)
    ensures Keyed(ByAlias(cs), AliasesOf(cs))
  {
    if cs != [] {
      ByAliasKeyed(cs[..|cs| - 1]);
      AliasesStep(cs);
      KeyedStep(ByAlias(cs[..|cs| - 1]), AliasesOf(cs[..|cs| - 1]), cs[|cs| - 1].alias, cs[|cs| - 1]);
    }
  }

  ghost predicate Maps(m: map<string, Cluster>, cs: seq<Cluster>) {
    forall k :: 0 <= k < |cs| ==> cs[k].alias in m && m[cs[k].alias] == cs[k]
  }

  lemma {:induction false} ByAliasMaps(cs: seq<Cluster>)
    requires Unique(AliasesOf(cs))
    ensures Maps(ByAlias(cs), cs)
  {
    if cs != [] {
      var init, n := cs[..|cs| - 1], |cs| - 1;
      assert forall k :: 0 <= k < n ==> AliasesOf(init)[k] == AliasesOf(cs)[k];
      ByAliasMaps(init);
      forall k | 0 <= k < n
        ensures cs[k].alias != cs[n].alias
      {
        assert !EqualFold(AliasesOf(cs)[k], AliasesOf(cs)[n]);
        assert AliasesOf(cs)[k] == cs[k].alias && AliasesOf(cs)[n] == cs[n].alias;
      }
      assert forall k :: 0 <= k < n ==> cs[k] == init[k];
    }
  }

  /** The registry that start-up builds from the environment and the stored records. */
  ghost function Booted(env: seq<Cluster>, mem: seq<Record>): Reg
    requires Readable(mem)
  {
    var cs := AllClusters(env, mem);
    Reg(ByAlias(cs), AliasesOf(cs), map[], Image(mem, mem))
  }

  /** Stored user names are trimmed. */
  ghost predicate Tidy(mem: seq<Record>) {
    forall k :: 0 <= k < |mem| ==>
      mem[k].credentials.Sealed? && TrimSpace(mem[k].credentials.user) == mem[k].credentials.user
  }

  lemma AllClustersAt(env: seq<Cluster>, mem: seq<Record>)
    requires Readable(mem)
    ensures var cs := AllClusters(env, mem);
      && (forall k :: 0 <= k < |env| ==> cs[k] == env[k])
      && (forall k :: 0 <= k < |mem| ==> cs[|env| + k] == FromRecord(mem[k]))
      && Listed(env, AliasesOf(cs), mem)
  {}

  lemma BootedClusters(env: seq<Cluster>, mem: seq<Record>, cs: seq<Cluster>, m: map<string, Cluster>)
    requires Readable(mem) && Tidy(mem) && Maps(m, cs) && |cs| == |env| + |mem|
    requires forall k :: 0 <= k < |env| ==> cs[k] == env[k] && env[k].source == Environment
    requires forall k :: 0 <= k < |mem| ==> cs[|env| + k] == FromRecord(mem[k])
    ensures Fixed(env, m) && Mirrored(m, mem) && Linked(m, mem)
  {}

  lemma BootedIsConsistent(env: seq<Cluster>, mem: seq<Record>)
    requires env != [] && (forall k :: 0 <= k < |env| ==> env[k].source == Environment)
    requires Tidy(mem) && Readable(mem) && GoodIds(mem) && Unique(AliasesOf(AllClusters(env, mem)))
    ensures Consistent(env, Booted(env, mem)) && Agree(Booted(env, mem))
  {
    var cs := AllClusters(env, mem);
    AllClustersAt(env, mem);
    ByAliasKeyed(cs);
    ByAliasMaps(cs);
    BootedClusters(env, mem, cs, ByAlias(cs));
  }

  function TrimmedUser(c: Cluster): Cluster { c.(client := c.client.(user := TrimSpace(c.client.user))) }

  /** What a restart makes of a live cluster: blanks around the user name of a platform cluster are gone. */
  function Restarted(c: Cluster): Cluster { if c.source == Platform then TrimmedUser(c) else c }

  lemma SameLists(env: seq<Cluster>, mem: seq<Record>, a: seq<string>, b: seq<string>)
    requires Listed(env, a, mem) && Listed(env, b, mem)
    ensures a == b
  {
    forall k | 0 <= k < |a|
      ensures a[k] == b[k]
    {
      var n := |env|;
      assert k < n ==> a[k] == env[k].alias == b[k];
      assert k >= n ==> a[n + (k - n)] == mem[k - n].alias == b[n + (k - n)];
    }
  }

  lemma RestartedCluster(env: seq<Cluster>, r: Reg, m: map<string, Cluster>, cs: seq<Cluster>, a: string)
    requires Fixed(env, r.clusters) && Mirrored(r.clusters, r.im.mem) && Readable(r.im.mem)
    requires Maps(m, cs) && |cs| == |env| + |r.im.mem|
    requires forall k :: 0 <= k < |env| ==> cs[k] == env[k]
    requires forall k :: 0 <= k < |r.im.mem| ==> cs[|env| + k] == FromRecord(r.im.mem[k])
    requires Listed(env, r.aliases, r.im.mem) && a in r.aliases && a in r.clusters
    ensures a in m && m[a] == Restarted(r.clusters[a])
  {
    var i :| 0 <= i < |r.aliases| && r.aliases[i] == a;
    var n := |env|;
    if i < n {
      assert r.clusters[env[i].alias] == env[i];
    } else {
      var item := r.im.mem[i - n];
      assert cs[n + (i - n)] == FromRecord(item) && r.aliases[n + (i - n)] == item.alias;
      assert Mirrors(r.clusters[item.alias], item);
    }
  }

  lemma RestartedKeys(m: map<string, Cluster>, clusters: map<string, Cluster>, aliases: seq<string>)
    requires Keyed(m, aliases) && Keyed(clusters, aliases)
    ensures m.Keys == clusters.Keys
  {}

  lemma RestartedClusters(env: seq<Cluster>, r: Reg, cs: seq<Cluster>)
    requires Consistent(env, r) && Mirrored(r.clusters, r.im.mem) && |cs| == |env| + |r.im.mem|
      && AliasesOf(cs) == r.aliases
    requires forall k :: 0 <= k < |env| ==> cs[k] == env[k]
    requires forall k :: 0 <= k < |r.im.mem| ==> cs[|env| + k] == FromRecord(r.im.mem[k])
    ensures ByAlias(cs).Keys == r.clusters.Keys
    ensures forall a :: a in r.clusters ==> ByAlias(cs)[a] == Restarted(r.clusters[a])
  {
    ByAliasKeyed(cs);
    ByAliasMaps(cs);
    RestartedKeys(ByAlias(cs), r.clusters, r.aliases);
    forall a | a in r.clusters
      ensures ByAlias(cs)[a] == Restarted(r.clusters[a])
    {
      RestartedCluster(env, r, ByAlias(cs), cs, a);
    }
  }

  /** A restart rebuilds the registry from the disk: the same aliases in the same order and the same clusters, but
      for blanks around the user names of platform clusters. */
  lemma RestartRebuilds(env: seq<Cluster>, r: Reg)
    requires Consistent(env, r) && Agree(r)
    ensures var t := Booted(env, r.im.disk);
      && t.aliases == r.aliases && t.clusters.Keys == r.clusters.Keys
      && forall a :: a in r.clusters ==> t.clusters[a] == Restarted(r.clusters[a])
  {
    AllClustersAt(env, r.im.mem);
    SameLists(env, r.im.mem, AliasesOf(AllClusters(env, r.im.mem)), r.aliases);
    RestartedClusters(env, r, AllClusters(env, r.im.mem));
  }

  // ---------------------------------------------------------------- an edit that stops half-way

  lemma OneRecordBoots(e: Cluster, item: Record)
    requires e.source == Environment && |e.alias| != |item.alias| && item.id != ""
    requires item.credentials.Sealed? && TrimSpace(item.credentials.user) == item.credentials.user
    ensures Readable([item]) && Consistent([e], Booted([e], [item])) && Agree(Booted([e], [item]))
  {
    var aliases := AliasesOf(AllClusters([e], [item]));
    assert aliases == [e.alias, item.alias];
    assert |Fold(e.alias)| != |Fold(item.alias)|;
    BootedIsConsistent([e], [item]);
  }

  lemma EditIsHalfDone(env: seq<Cluster>, r: Reg, q: Request, item: Record)
    requires Consistent(env, r) && r.im.mem == [item] && q.EditCluster? && q.id == item.id != ""
    requires q.renew && Usable(q.envelope)
    requires var input := EditInput(q, item.alias);
      Leaks(r.im, item.id, input, true, q.w) && Touched(item, input) != item
    ensures HalfDone(r, q)
  {
    TargetIsRecord(env, r, q.id, item.alias);
    var i := FoundRecord(env, r, q.id);
    assert r.im.mem[0] == item;
  }

  /** A registry with one cluster of the environment and one stored record, and an edit with a new URL whose
      credentials cannot be encrypted: the live cluster and the disk keep the old URL, the record has the new one. */
  lemma FailedSealDisagrees(e: Cluster, w: World) returns (r: Reg, q: Request)
    requires e.source == Environment && e.alias == "local" && w.urlKind == PlainHttp && !w.sealOk
    ensures Consistent([e], r) && Agree(r) && |r.im.mem| == 1
    ensures q.EditCluster? && FreshId(r, q) && !Agree(After(r, q))
  {
    var im, op := FailedSealLeaks(w);
    var item := im.mem[0];
    TrimFixed("u");
    OneRecordBoots(e, item);
    r, q := Booted([e], [item]), EditCluster("1", "b", "", true, Unsealed("u", ""), w);
    AllOrNothing(im, op);
    assert IndexOf(im.mem, item.id) == 0 && im == r.im && EditInput(q, item.alias) == op.input;
    EditIsHalfDone([e], r, q, item);
    RequestKeepsRegistry([e], r, q);
  }
}
