/** The handlers of internal/server/server.go that change the registry, and the start-up of cmd/console/main.go, in
    place: a cluster map, an alias slice and a session table over the encrypted store. */
module ClusterServer {
  import opened SqlText
  import opened CaseFold
  import opened ClusterStore
  import opened Registry

  function FromConfig(c: Config): Cluster {
    PlatformCluster(c.id, c.alias, c.url, c.database, c.user, c.password)
  }

  /** The loop of main over the stored clusters; `all` is what the list should become. */
  method GatherStored(stored: seq<Config>, before: seq<Cluster>, lower: set<string>, ghost all: seq<Cluster>)
    returns (configured: Option<seq<Cluster>>)
    requires |all| == |before| + |stored| && all[..|before|] == before
    requires forall i :: 0 <= i < |stored| ==> all[|before| + i] == FromConfig(stored[i])
    requires Unique(AliasesOf(before)) && Seen(lower, all, |before|)
    ensures configured.Some? <==> Unique(AliasesOf(all))
    ensures configured.Some? ==> configured.value == all
  {
    var clusters, seen := before, lower;
    for i := 0 to |stored|
      invariant clusters == all[..|before| + i] && Unique(AliasesOf(clusters)) && Seen(seen, all, |before| + i)
    {
      var c := FromConfig(stored[i]);
      assert c == all[|before| + i];
      SeenStep(seen, all, |before| + i);
      if Fold(c.alias) in seen { return None; }
      seen := seen + {Fold(c.alias)};
      clusters := clusters + [c];
      assert clusters == all[..|before| + i + 1];
    }
    assert clusters == all;
    return Some(clusters);
  }

  /** main: the environment's clusters and the stored ones, unless two aliases differ in case only or a record does
      not open. */
  method Gather(env: seq<Cluster>, store: Store) returns (configured: Option<seq<Cluster>>)
    requires store.Valid() && Unique(AliasesOf(env))
    ensures configured.Some? <==>
      Readable(store.Contents()) && Unique(AliasesOf(AllClusters(env, store.Contents())))
    ensures configured.Some? ==> configured.value == AllClusters(env, store.Contents())
  {
    var stored := store.Configs();
    if stored.Err? { return None; }
    ghost var all := AllClusters(env, store.Contents());
    AllClustersAt(env, store.Contents());
    assert all[..|env|] == env;
    var clusters: seq<Cluster>, seen: set<string> := [], {};
    for i := 0 to |env|
      invariant clusters == env[..i] && Seen(seen, env, i)
    {
      seen := seen + {Fold(env[i].alias)};
      clusters := clusters + [env[i]];
    }
    assert clusters == env && Seen(seen, all, |env|);
    configured := GatherStored(stored.value, clusters, seen, all);
  }

  /** The aliases of the first `n` clusters, in lower case. */
  ghost predicate Seen(seen: set<string>, cs: seq<Cluster>, n: nat)
    requires n <= |cs|
  {
    forall a :: a in seen <==> exists k :: 0 <= k < n && Fold(cs[k].alias) == a
  }

  lemma SeenStep(seen: set<string>, cs: seq<Cluster>, n: nat)
    requires n < |cs| && Seen(seen, cs, n) && Unique(AliasesOf(cs[..n]))
    ensures Fold(cs[n].alias) !in seen ==> Unique(AliasesOf(cs[..n + 1])) && Seen(seen + {Fold(cs[n].alias)}, cs, n + 1)
    ensures Fold(cs[n].alias) in seen ==> !Unique(AliasesOf(cs))
  {
    assert forall k :: 0 <= k < n ==>
      AliasesOf(cs[..n])[k] == cs[k].alias == AliasesOf(cs[..n + 1])[k] == AliasesOf(cs)[k];
    assert AliasesOf(cs[..n + 1])[n] == cs[n].alias == AliasesOf(cs)[n];
    if Fold(cs[n].alias) in seen {
      var k :| 0 <= k < n && Fold(cs[k].alias) == Fold(cs[n].alias);
      assert EqualFold(AliasesOf(cs)[k], AliasesOf(cs)[n]);
    }
  }

  /** The loop of New. */
  method Register(configured: seq<Cluster>) returns (byAlias: map<string, Cluster>, names: seq<string>)
    ensures byAlias == ByAlias(configured) && names == AliasesOf(configured)
  {
    byAlias, names := map[], [];
    for i := 0 to |configured|
      invariant byAlias == ByAlias(configured[..i]) && names == AliasesOf(configured[..i])
    {
      assert configured[..i + 1][..i] == configured[..i];
      byAlias := byAlias[configured[i].alias := configured[i]];
      names := names + [configured[i].alias];
    }
    assert configured[..|configured|] == configured;
  }

  lemma StartsConsistent(env: seq<Cluster>, configured: seq<Cluster>, mem: seq<Record>, r: Reg)
    requires Tidy(mem) && Readable(mem) && GoodIds(mem)
    requires env != [] && (forall k :: 0 <= k < |env| ==> env[k].source == Environment)
    requires configured == AllClusters(env, mem) && Unique(AliasesOf(configured))
    requires r == Reg(ByAlias(configured), AliasesOf(configured), map[], Image(mem, mem))
    ensures r == Booted(env, mem) && Consistent(env, r) && Agree(r)
  {
    BootedIsConsistent(env, mem);
  }

  class Server {
    const platform: Store
    var clusters: map<string, Cluster>
    var aliases: seq<string>
    var sessions: map<string, Session>
    ghost const env: seq<Cluster>

    ghost function View(): Reg
      requires platform.Valid()
      reads this, platform, platform.buf
    {
      Reg(clusters, aliases, sessions, platform.View())
    }

    ghost predicate Valid()
      reads this, platform, platform.buf
    {
      platform.Valid() && Consistent(env, View())
    }

    /** New, on what `Gather` returned. */
    constructor (ghost env: seq<Cluster>, configured: seq<Cluster>, platform: Store)
      requires platform.Valid() && Tidy(platform.Contents()) && Readable(platform.Contents())
        && GoodIds(platform.Contents())
      requires platform.disk == platform.Contents()
      requires env != [] && (forall k :: 0 <= k < |env| ==> env[k].source == Environment)
      requires configured == AllClusters(env, platform.Contents()) && Unique(AliasesOf(configured))
      ensures Valid() && Agree(View()) && View() == Booted(env, platform.Contents())
      ensures this.platform == platform && this.env == env
    {
      var byAlias, names := Register(configured);
      this.platform, this.env := platform, env;
      clusters, aliases, sessions := byAlias, names, map[];
      new;
      StartsConsistent(env, configured, platform.Contents(), View());
    }

    method Login(sid: string, user: string, authentic: bool) returns (status: int)
      requires Valid()
      modifies this`sessions
      ensures var q := Request.Login(sid, user, authentic);
        Valid() && status == Status(old(View()), q) && View() == After(old(View()), q)
      ensures status == (if authentic then 200 else 401)
      ensures authentic ==> sid in sessions && sessions[sid].user == user && sessions[sid].active == env[0].alias
    {
      SessionsStayPresent(env, View(), Request.Login(sid, user, authentic));
      if !authentic { return 401; }
      sessions := sessions[sid := Session(user, aliases[0])];
      return 200;
    }

    method Logout(sid: string) returns (status: int)
      requires Valid()
      modifies this`sessions
      ensures var q := Request.Logout(sid);
        Valid() && status == Status(old(View()), q) && View() == After(old(View()), q)
    {
      SessionsStayPresent(env, View(), Request.Logout(sid));
      sessions := sessions - {sid};
      return 204;
    }

    method SwitchCluster(sid: string, alias: string, confirm: string) returns (status: int)
      requires Valid()
      modifies this`sessions
      ensures var q := Request.Switch(sid, alias, confirm);
        Valid() && status == Status(old(View()), q) && View() == After(old(View()), q)
      ensures status == 200 <==> alias != "" && confirm == alias && alias in clusters && sid in old(sessions)
      ensures status == 200 ==> sessions == old(sessions)[sid := Session(old(sessions)[sid].user, alias)]
      ensures status != 200 ==> sessions == old(sessions)
    {
      SessionsStayPresent(env, View(), Request.Switch(sid, alias, confirm));
      if alias == "" || confirm != alias { return 400; }
      if alias !in clusters { return 404; }
      if sid !in sessions { return 401; }
      var updated := sessions[sid].(active := alias);
      sessions := sessions[sid := updated];
      return 200;
    }

    /** The search of createCluster for an alias that differs in case only. */
    method AliasInUse(alias: string) returns (found: bool)
      ensures found == InUse(clusters, alias)
    {
      var keys := clusters.Keys;
      while keys != {}
        invariant keys <= clusters.Keys
        invariant forall a :: a in clusters && a !in keys ==> !EqualFold(a, TrimSpace(alias))
        decreases |keys|
      {
        var a :| a in keys;
        keys := keys - {a};
        if EqualFold(a, TrimSpace(alias)) { return true; }
      }
      return false;
    }

    /** The search by id has one answer at most, and that cluster is stored under its alias. */
    ghost predicate Searchable()
      requires platform.Valid()
      reads this, platform, platform.buf
    {
      forall id, a :: IsTarget(View(), id, a) ==> Target(View(), id) == Some(a) && clusters[a].alias == a
    }

    lemma ValidIsSearchable()
      requires Valid()
      ensures Searchable()
    {
      forall id, a | IsTarget(View(), id, a)
        ensures Target(View(), id) == Some(a) && clusters[a].alias == a
      {
        TargetIsRecord(env, View(), id, a);
        TargetIsRecord(env, View(), id, Target(View(), id).value);
        var i := FoundRecord(env, View(), id);
      }
    }

    /** The search of updateCluster and deleteCluster, in whatever order the map is walked. */
    method FindPlatform(id: string) returns (found: Option<Cluster>)
      requires platform.Valid() && Searchable()
      ensures found == if Target(View(), id).Some? then Some(clusters[Target(View(), id).value]) else None
      ensures found.Some? ==> found.value.alias == Target(View(), id).value && found.value.id == id
    {
      var keys := clusters.Keys;
      while keys != {}
        invariant keys <= clusters.Keys
        invariant forall a :: a in clusters && a !in keys ==> !IsTarget(View(), id, a)
        decreases |keys|
      {
        var a :| a in keys;
        keys := keys - {a};
        if clusters[a].id == id && clusters[a].source == Platform {
          assert IsTarget(View(), id, a);
          return Some(clusters[a]);
        }
      }
      return None;
    }

    method CreateCluster(alias: string, url: string, database: string, envelope: Envelope, w: World)
        returns (status: int)
      requires Valid() && FreshId(View(), AddCluster(alias, url, database, envelope, w))
      modifies this`clusters, this`aliases, platform, platform.buf
      ensures var q := AddCluster(alias, url, database, envelope, w);
        Valid() && status == Status(old(View()), q) && View() == After(old(View()), q)
    {
      RequestKeepsRegistry(env, View(), AddCluster(alias, url, database, envelope, w));
      if !Usable(envelope) { return 400; }
      var inUse := AliasInUse(alias);
      if inUse { return 400; }
      var created := platform.Create(Input(alias, url, envelope.user, envelope.password, database), w);
      if created.Err? { return 400; }
      var item := created.value;
      clusters := clusters[item.alias :=
        PlatformCluster(item.id, item.alias, item.url, item.database, envelope.user, envelope.password)];
      aliases := aliases + [item.alias];
      return 201;
    }

    method Edit(id: string, url: string, database: string, renew: bool, envelope: Envelope, w: World)
        returns (status: int)
      requires platform.Valid() && Searchable()
      modifies this`clusters, platform`disk, platform.buf
      ensures var q := EditCluster(id, url, database, renew, envelope, w);
        platform.Valid() && status == Status(old(View()), q) && View() == After(old(View()), q)
    {
      var user, password := "", "";
      if renew {
        if !Usable(envelope) { return 400; }
        user, password := envelope.user, envelope.password;
      }
      var current := FindPlatform(id);
      if current.None? || current.value.id == "" { return 404; }
      var input := Input(current.value.alias, url, user, password, database);
      var updated := platform.Update(current.value.id, input, renew, w);
      if updated.Err? { return 400; }
      var c := updated.value;
      clusters := clusters[current.value.alias := FromConfig(c)];
      return 200;
    }

    /** updateCluster */
    method UpdateCluster(id: string, url: string, database: string, renew: bool, envelope: Envelope, w: World)
      returns (status: int)
      requires Valid()
      modifies this`clusters, platform`disk, platform.buf
      ensures var q := EditCluster(id, url, database, renew, envelope, w);
        Valid() && status == Status(old(View()), q) && View() == After(old(View()), q)
    {
      RequestKeepsRegistry(env, View(), EditCluster(id, url, database, renew, envelope, w));
      ValidIsSearchable();
      status := Edit(id, url, database, renew, envelope, w);
    }

    /** The loop of deleteCluster over the sessions. */
    method SomeSessionOn(alias: string) returns (found: bool)
      ensures found == Active(sessions, alias)
    {
      var keys := sessions.Keys;
      while keys != {}
        invariant keys <= sessions.Keys
        invariant forall sid :: sid in sessions && sid !in keys ==> sessions[sid].active != alias
        decreases |keys|
      {
        var sid :| sid in keys;
        keys := keys - {sid};
        if sessions[sid].active == alias { return true; }
      }
      return false;
    }

    /** The loop of deleteCluster over the alias slice. */
    method ForgetAlias(alias: string)
      modifies this`aliases
      ensures aliases == RemoveFirst(old(aliases), alias)
    {
      var i := 0;
      while i < |aliases| && aliases[i] != alias
        invariant i <= FirstAt(aliases, alias)
      {
        i := i + 1;
      }
      if i < |aliases| { aliases := aliases[..i] + aliases[i + 1..]; }
    }

    method Drop(id: string, w: World) returns (status: int)
      requires platform.Valid() && Searchable()
      modifies this`clusters, this`aliases, platform`n, platform`disk, platform.buf
      ensures var q := DropCluster(id, w);
        platform.Valid() && status == Status(old(View()), q) && View() == After(old(View()), q)
    {
      var target := FindPlatform(id);
      if target.None? || target.value.id == "" { return 404; }
      var active := SomeSessionOn(target.value.alias);
      if active { return 409; }
      var failed := platform.Delete(target.value.id, w);
      if failed.Some? { return 400; }
      clusters := clusters - {target.value.alias};
      ForgetAlias(target.value.alias);
      return 204;
    }

    /** deleteCluster */
    method DeleteCluster(id: string, w: World) returns (status: int)
      requires Valid()
      modifies this`clusters, this`aliases, platform`n, platform`disk, platform.buf
      ensures var q := DropCluster(id, w);
        Valid() && status == Status(old(View()), q) && View() == After(old(View()), q)
    {
      RequestKeepsRegistry(env, View(), DropCluster(id, w));
      ValidIsSearchable();
      status := Drop(id, w);
    }
  }
}
