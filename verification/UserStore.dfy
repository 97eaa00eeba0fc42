/** The user and audit store of internal/store/store.go. */
module UserStore {
  import opened SqlText
  import opened CaseFold

  datatype User = User(id: string, username: string, role: string, hash: string, disabled: bool, createdAt: int,
                       updatedAt: int)

  datatype Audit = Audit(id: string, user: string, action: string, status: string, at: int)

  datatype Error =
    | BadUsername | BadRole | ShortPassword | LongPassword | UsernameTaken | LastAdmin | NotFound | CannotSave

  /** What the world decides during a call: the random id, the password hash, the disk, the clock. */
  datatype World = World(freshId: string, hash: string, saveOk: bool, now: int)

  const MAX_AUDITS := 5000

  predicate ValidRole(r: string) { r == "viewer" || r == "editor" || r == "admin" }

  function PasswordError(p: string): Option<Error> {
    if |p| < 12 then Some(ShortPassword) else if |p| > 256 then Some(LongPassword) else None
  }

  predicate ActiveAdmin(u: User) { u.role == "admin" && !u.disabled }

  function ActiveAdmins(users: seq<User>): nat {
    if users == [] then 0
    else ActiveAdmins(users[..|users| - 1]) + (if ActiveAdmin(users[|users| - 1]) then 1 else 0)
  }

  predicate Taken(users: seq<User>, username: string) {
    exists k :: 0 <= k < |users| && EqualFold(users[k].username, username)
  }

  function IndexOf(users: seq<User>, id: string): (r: nat)
    ensures r <= |users| && (forall k :: 0 <= k < r ==> users[k].id != id) && (r < |users| ==> users[r].id == id)
  {
    if users == [] then 0 else if users[0].id == id then 0 else 1 + IndexOf(users[1..], id)
  }

  // ---------------------------------------------------------------- the users as a value

  datatype Op =
    | Create(username: string, password: string, role: string, w: World)
    | Update(id: string, role: string, password: string, disabled: Option<bool>, w: World)

  function CreateError(users: seq<User>, username: string, password: string, role: string): Option<Error> {
    var name := TrimSpace(username);
    if name == "" || |name| > 64 then Some(BadUsername)
    else if !ValidRole(role) then Some(BadRole)
    else if PasswordError(password).Some? then PasswordError(password)
    else if Taken(users, name) then Some(UsernameTaken)
    else None
  }

  function NewUser(username: string, role: string, w: World): User {
    User(w.freshId, TrimSpace(username), role, w.hash, false, w.now, w.now)
  }

  /** The request takes the role of an administrator away, or disables the account. */
  predicate Demotes(role: string, disabled: Option<bool>) {
    (role != "" && role != "admin") || disabled == Some(true)
  }

  predicate Guarded(users: seq<User>, u: User, role: string, disabled: Option<bool>) {
    Demotes(role, disabled) && ActiveAdmin(u) && ActiveAdmins(users) == 1
  }

  function UpdateError(users: seq<User>, op: Op): Option<Error>
    requires op.Update?
  {
    var i := IndexOf(users, op.id);
    if i == |users| then Some(NotFound)
    else if Guarded(users, users[i], op.role, op.disabled) then Some(LastAdmin)
    else if op.role != "" && !ValidRole(op.role) then Some(BadRole)
    else if op.password != "" then PasswordError(op.password)
    else None
  }

  function WithRole(u: User, role: string): User { if role == "" then u else u.(role := role) }

  function Changed(u: User, op: Op): User
    requires op.Update?
  {
    var v := WithRole(u, op.role);
    v.(hash := if op.password == "" then v.hash else op.w.hash,
       disabled := if op.disabled.Some? then op.disabled.value else v.disabled,
       updatedAt := op.w.now)
  }

  /** A rejected password comes after the change of role, which stays. */
  function Apply(users: seq<User>, op: Op): seq<User> {
    match op
    case Create(username, password, role, w) =>
      if CreateError(users, username, password, role).Some? then users else users + [NewUser(username, role, w)]
    case Update(id, role, _, _, _) =>
      var i := IndexOf(users, id);
      var error := UpdateError(users, op);
      if error.None? then users[i := Changed(users[i], op)]
      else if error.value == ShortPassword || error.value == LongPassword then users[i := WithRole(users[i], role)]
      else users
  }

  /** A save that fails is reported, but what it should have saved stays. */
  function Reply(users: seq<User>, op: Op): Option<Error> {
    var error := match op
      case Create(username, password, role, _) => CreateError(users, username, password, role)
      case Update(_, _, _, _, _) => UpdateError(users, op);
    if error.None? && !op.w.saveOk then Some(CannotSave) else error
  }

  ghost predicate DistinctNames(users: seq<User>) {
    forall i, j :: 0 <= i < j < |users| ==> !EqualFold(users[i].username, users[j].username)
  }

  ghost predicate Good(users: seq<User>) { DistinctNames(users) && ActiveAdmins(users) >= 1 }

  function Score(u: User): nat { if ActiveAdmin(u) then 1 else 0 }

  lemma {:induction false} AdminsReplaced(users: seq<User>, i: nat, u: User)
    requires i < |users|
    ensures ActiveAdmins(users[i := u]) + Score(users[i]) == ActiveAdmins(users) + Score(u)
  {
    var n := |users| - 1;
    if i == n {
      assert users[i := u][..n] == users[..n];
    } else {
      AdminsReplaced(users[..n], i, u);
      assert users[i := u][..n] == users[..n][i := u];
    }
  }

  lemma {:induction false} AdminsOfAtLeastOne(users: seq<User>, i: nat)
    requires i < |users|
    ensures ActiveAdmins(users) >= Score(users[i])
  {
    if i < |users| - 1 { AdminsOfAtLeastOne(users[..|users| - 1], i); }
  }

  /** The guard of UpdateUser is exact: it refuses just the changes that would leave no active administrator. */
  lemma GuardIsExact(users: seq<User>, op: Op)
    requires op.Update? && ActiveAdmins(users) >= 1 && IndexOf(users, op.id) < |users|
    ensures var i := IndexOf(users, op.id);
      ActiveAdmins(users[i := Changed(users[i], op)]) == 0 <==> Guarded(users, users[i], op.role, op.disabled)
  {
    var i := IndexOf(users, op.id);
    AdminsReplaced(users, i, Changed(users[i], op));
    AdminsOfAtLeastOne(users, i);
  }

  /** An update touches one user at most, never the id, the name or the creation time, and takes the role, the
      password and the lock from the request where the request gives them; a refusal leaves at most the new role. */
  lemma UpdateChangesOnlyWhatItNames(users: seq<User>, op: Op, k: nat)
    requires op.Update? && k < |users|
    ensures |Apply(users, op)| == |users|
    ensures var was, now := users[k], Apply(users, op)[k];
      && (k != IndexOf(users, op.id) ==> now == was)
      && now.id == was.id && now.username == was.username && now.createdAt == was.createdAt
      && (k == IndexOf(users, op.id) && UpdateError(users, op).None? ==>
            && now.role == (if op.role == "" then was.role else op.role)
            && now.hash == (if op.password == "" then was.hash else op.w.hash)
            && now.disabled == (if op.disabled.None? then was.disabled else op.disabled.value))
      && (UpdateError(users, op).Some? ==> now.disabled == was.disabled && now.hash == was.hash)
      && (UpdateError(users, op).Some? && PasswordError(op.password) != UpdateError(users, op) ==> now == was)
  {}

  lemma UpdateKeepsNames(users: seq<User>, i: nat, u: User)
    requires DistinctNames(users) && i < |users| && u.username == users[i].username
    ensures DistinctNames(users[i := u])
  {}

  lemma UpdateKeepsGood(users: seq<User>, op: Op)
    requires Good(users) && op.Update?
    ensures Good(Apply(users, op))
  {
    var i := IndexOf(users, op.id);
    if i < |users| {
      GuardIsExact(users, op);
      AdminsReplaced(users, i, WithRole(users[i], op.role));
      AdminsOfAtLeastOne(users, i);
      UpdateKeepsNames(users, i, Changed(users[i], op));
      UpdateKeepsNames(users, i, WithRole(users[i], op.role));
    }
  }

  lemma CreateKeepsGood(users: seq<User>, op: Op)
    requires Good(users) && op.Create?
    ensures Good(Apply(users, op))
  {
    var u := NewUser(op.username, op.role, op.w);
    assert (users + [u])[..|users|] == users;
  }

  function Run(users: seq<User>, ops: seq<Op>): seq<User> {
    if ops == [] then users else Apply(Run(users, ops[..|ops| - 1]), ops[|ops| - 1])
  }

  lemma RunNext(users: seq<User>, ops: seq<Op>, op: Op)
    ensures Run(users, []) == users && Run(users, ops + [op]) == Apply(Run(users, ops), op)
  {
    assert (ops + [op])[..|ops|] == ops;
  }

  /** Over every run of creations and updates, accepted, refused or half-applied, an active administrator is left
      and no two usernames differ in case only. */
  lemma {:induction false} RunKeepsGood(users: seq<User>, ops: seq<Op>)
    requires Good(users)
    ensures Good(Run(users, ops))
  {
    if ops != [] {
      var before, op := Run(users, ops[..|ops| - 1]), ops[|ops| - 1];
      RunKeepsGood(users, ops[..|ops| - 1]);
      if op.Create? { CreateKeepsGood(before, op); } else { UpdateKeepsGood(before, op); }
    }
  }

  /** Open on an empty store: the first administrator. */
  lemma FirstAdminIsGood(name: string, w: World)
    ensures Good([User(w.freshId, name, "admin", w.hash, false, w.now, w.now)])
  {
    var u := User(w.freshId, name, "admin", w.hash, false, w.now, w.now);
    assert ActiveAdmins([u][..0]) == 0;
  }

  // ---------------------------------------------------------------- every answer

  ghost predicate KnownRole(role: string) { role == "viewer" || role == "editor" || role == "admin" }

  /** Somebody has the name already, whatever its case. */
  ghost predicate NameTaken(users: seq<User>, name: string) {
    exists k :: 0 <= k < |users| && EqualFold(users[k].username, name)
  }

  lemma PasswordLimits(p: string)
    ensures PasswordError(p) == Some(ShortPassword) <==> |p| <= 11
    ensures PasswordError(p) == Some(LongPassword) <==> |p| >= 257
    ensures PasswordError(p) == None <==> 12 <= |p| <= 256
  {}

  /** When a creation is answered with what. */
  lemma CreateAnswers(users: seq<User>, username: string, password: string, role: string, w: World)
    ensures var name := TrimSpace(username);
      var reply := Reply(users, Create(username, password, role, w));
      var named := 1 <= |name| <= 64;
      var known := named && KnownRole(role);
      var safe := known && 12 <= |password| <= 256;
      && (!named ==> reply == Some(BadUsername))
      && (named && !known ==> reply == Some(BadRole))
      && (known && |password| <= 11 ==> reply == Some(ShortPassword))
      && (known && |password| >= 257 ==> reply == Some(LongPassword))
      && (safe && NameTaken(users, name) ==> reply == Some(UsernameTaken))
      && (safe && !NameTaken(users, name) ==> reply == if w.saveOk then None else Some(CannotSave))
  {
    PasswordLimits(password);
  }

  /** The user that a creation adds: active, with the trimmed name, the role that was asked for and the new hash. A
      refused creation adds nobody. */
  lemma CreatedUser(users: seq<User>, username: string, password: string, role: string, w: World)
    ensures var op := Create(username, password, role, w);
      var next, reply := Apply(users, op), Reply(users, op);
      && (reply != None && reply != Some(CannotSave) ==> next == users)
      && (reply == None || reply == Some(CannotSave) ==>
            && |next| == |users| + 1 && next[..|users|] == users
            && var u := next[|users|];
            && u.id == w.freshId && u.username == TrimSpace(username) && u.role == role && u.hash == w.hash
            && !u.disabled && u.createdAt == w.now && u.updatedAt == w.now)
  {
    CreateAnswers(users, username, password, role, w);
  }

  /** The change would take the last active administrator away. */
  ghost predicate LastOne(users: seq<User>, u: User, role: string, disabled: Option<bool>) {
    && u.role == "admin" && !u.disabled && ActiveAdmins(users) == 1
    && (role == "viewer" || role == "editor" || (role != "" && role != "admin") || disabled == Some(true))
  }

  /** When an update is answered with what, for the first user with the id. */
  lemma UpdateAnswers(users: seq<User>, op: Op, i: nat)
    requires op.Update? && i < |users| && users[i].id == op.id && forall k :: 0 <= k < i ==> users[k].id != op.id
    ensures var reply, last := Reply(users, op), LastOne(users, users[i], op.role, op.disabled);
      var known := !last && (op.role == "" || KnownRole(op.role));
      var safe := known && (op.password == "" || 12 <= |op.password| <= 256);
      && (last ==> reply == Some(LastAdmin))
      && (!last && !known ==> reply == Some(BadRole))
      && (known && 0 < |op.password| <= 11 ==> reply == Some(ShortPassword))
      && (known && |op.password| >= 257 ==> reply == Some(LongPassword))
      && (safe ==> reply == if op.w.saveOk then None else Some(CannotSave))
  {
    PasswordLimits(op.password);
    assert IndexOf(users, op.id) == i by { FoundAt(users, op.id, i); }
  }

  lemma {:induction false} FoundAt(users: seq<User>, id: string, i: nat)
    requires i <= |users| && (i < |users| ==> users[i].id == id) && forall k :: 0 <= k < i ==> users[k].id != id
    ensures IndexOf(users, id) == i
  {}

  lemma UnknownUser(users: seq<User>, op: Op)
    requires op.Update? && forall k :: 0 <= k < |users| ==> users[k].id != op.id
    ensures Reply(users, op) == Some(NotFound) && Apply(users, op) == users
  {
    FoundAt(users, op.id, |users|);
  }

  /** What an accepted update makes of the user, and what a rejected password leaves. */
  lemma UpdatedUser(users: seq<User>, op: Op, i: nat)
    requires op.Update? && i < |users| && users[i].id == op.id && forall k :: 0 <= k < i ==> users[k].id != op.id
    ensures var reply, was, now := Reply(users, op), users[i], Apply(users, op)[i];
      && |Apply(users, op)| == |users|
      && (reply == None || reply == Some(CannotSave) ==>
            && now.role == (if op.role == "" then was.role else op.role)
            && now.hash == (if op.password == "" then was.hash else op.w.hash)
            && now.disabled == (match op.disabled case None => was.disabled case Some(d) => d)
            && now.updatedAt == op.w.now)
      && (reply == Some(ShortPassword) || reply == Some(LongPassword) ==>
            && now.role == (if op.role == "" then was.role else op.role)
            && now.hash == was.hash && now.disabled == was.disabled && now.updatedAt == was.updatedAt)
      && (reply == Some(LastAdmin) || reply == Some(BadRole) ==> now == was)
  {
    UpdateAnswers(users, op, i);
    FoundAt(users, op.id, i);
  }

  /** The user has the role of an administrator, and the account is not disabled. */
  ghost predicate AdminAt(users: seq<User>, k: nat) { k < |users| && users[k].role == "admin" && !users[k].disabled }

  lemma {:induction false} SomeAdmin(users: seq<User>)
    ensures ActiveAdmins(users) >= 1 <==> exists k :: AdminAt(users, k)
  {
    if users != [] {
      var n := |users| - 1;
      SomeAdmin(users[..n]);
      assert forall k: nat :: k < n ==> (AdminAt(users, k) <==> AdminAt(users[..n], k));
      assert AdminAt(users, n) <==> ActiveAdmin(users[n]);
    }
  }

  /** The guard's count: two administrators are counted exactly when there are two. */
  lemma {:induction false} TwoAdmins(users: seq<User>)
    ensures ActiveAdmins(users) >= 2 <==> exists i, j :: i < j && AdminAt(users, i) && AdminAt(users, j)
  {
    if users != [] {
      var n := |users| - 1;
      TwoAdmins(users[..n]);
      SomeAdmin(users[..n]);
      assert forall k: nat :: k < n ==> (AdminAt(users, k) <==> AdminAt(users[..n], k));
      assert AdminAt(users, n) <==> ActiveAdmin(users[n]);
    }
  }

  // ---------------------------------------------------------------- the audit log

  /** The last `n` entries. */
  function Last<T>(log: seq<T>, n: nat): seq<T> { if |log| <= n then log else log[|log| - n..] }

  function Reversed<T>(s: seq<T>): (r: seq<T>)
    ensures |r| == |s| && forall k :: 0 <= k < |s| ==> r[k] == s[|s| - 1 - k]
  {
    seq(|s|, k requires 0 <= k < |s| => s[|s| - 1 - k])
  }

  /** Adding to the capped log keeps it the last 5000 entries of the whole log. */
  lemma CapIsLast<T>(log: seq<T>, entry: T)
    ensures var capped := Last(Last(log, MAX_AUDITS) + [entry], MAX_AUDITS);
      capped == Last(log + [entry], MAX_AUDITS) == if |log| < 5000 then log + [entry]
        else (log + [entry])[|log| - 4999..]
  {}

  lemma LastOfLast<T>(log: seq<T>, n: nat, m: nat)
    requires n <= m
    ensures Last(Last(log, m), n) == Last(log, n)
  {}

  /** The newest entries first, by position. */
  ghost predicate NewestFirst<T>(out: seq<T>, log: seq<T>, n: nat) {
    && |out| == (if |log| < n then |log| else n)
    && forall k :: 0 <= k < |out| ==> out[k] == log[|log| - 1 - k]
  }

  lemma LastReversed<T>(log: seq<T>, n: nat)
    ensures NewestFirst(Reversed(Last(log, n)), log, n)
  {}

  lemma ApplyByError(users: seq<User>, op: Op, i: nat, e: Option<Error>)
    requires op.Update? && i == IndexOf(users, op.id) < |users| && e == UpdateError(users, op)
    ensures Reply(users, op) == if e.None? && !op.w.saveOk then Some(CannotSave) else e
    ensures Apply(users, op) ==
      if e.None? then users[i := Changed(users[i], op)]
      else if e.value == ShortPassword || e.value == LongPassword then users[i := WithRole(users[i], op.role)]
      else users
  {}

  /** Why an update is refused once the guard has let it pass. */
  lemma ErrorBehindGuard(users: seq<User>, op: Op, i: nat)
    requires op.Update? && i == IndexOf(users, op.id) < |users| && !Guarded(users, users[i], op.role, op.disabled)
    ensures UpdateError(users, op) ==
      if op.role != "" && !ValidRole(op.role) then Some(BadRole)
      else if op.password != "" then PasswordError(op.password)
      else None
  {}

  class Store {
    var users: seq<User>
    var audits: seq<Audit>
    // every entry that was ever added
    ghost var log: seq<Audit>

    ghost predicate Valid()
      reads this
    {
      Good(users) && audits == Last(log, MAX_AUDITS)
    }

    /** Open on an empty store. */
    constructor (admin: string, w: World)
      ensures Valid() && log == []
    {
      users, audits, log := [User(w.freshId, admin, "admin", w.hash, false, w.now, w.now)], [], [];
      FirstAdminIsGood(admin, w);
    }

    method CreateUser(username: string, password: string, role: string, w: World) returns (error: Option<Error>)
      requires Valid()
      modifies this`users
      ensures var op := Create(username, password, role, w);
        Valid() && users == Apply(old(users), op) && error == Reply(old(users), op)
    {
      CreateKeepsGood(users, Create(username, password, role, w));
      var name := TrimSpace(username);
      if name == "" || |name| > 64 { return Some(BadUsername); }
      if !ValidRole(role) { return Some(BadRole); }
      if PasswordError(password).Some? { return PasswordError(password); }
      for i := 0 to |users|
        invariant forall k :: 0 <= k < i ==> !EqualFold(users[k].username, name)
      {
        if EqualFold(users[i].username, name) { return Some(UsernameTaken); }
      }
      users := users + [NewUser(username, role, w)];
      return if w.saveOk then None else Some(CannotSave);
    }

    /** activeAdminsLocked */
    method CountActiveAdmins() returns (n: nat)
      ensures n == ActiveAdmins(users)
    {
      n := 0;
      for i := 0 to |users|
        invariant n == ActiveAdmins(users[..i])
      {
        assert users[..i + 1][..i] == users[..i];
        if users[i].role == "admin" && !users[i].disabled { n := n + 1; }
      }
      assert users[..|users|] == users;
    }

    /** The part of UpdateUser behind the guard, on the user it has found. */
    method Patch(i: nat, role: string, password: string, disabled: Option<bool>, w: World)
        returns (error: Option<Error>)
      requires i < |users|
      modifies this`users
      ensures var was, u, op := old(users), old(users)[i], Update("", role, password, disabled, w);
        if role != "" && !ValidRole(role) then error == Some(BadRole) && users == was
        else if password != "" && PasswordError(password).Some? then
          error == PasswordError(password) && users == was[i := WithRole(u, role)]
        else error == (if w.saveOk then None else Some(CannotSave)) && users == was[i := Changed(u, op)]
    {
      var u := users[i];
      if role != "" {
        if !ValidRole(role) { return Some(BadRole); }
        u := u.(role := role);
        users := users[i := u];
      }
      if password != "" {
        if PasswordError(password).Some? { return PasswordError(password); }
        u := u.(hash := w.hash);
        users := users[i := u];
      }
      if disabled.Some? {
        u := u.(disabled := disabled.value);
        users := users[i := u];
      }
      u := u.(updatedAt := w.now);
      users := users[i := u];
      return if w.saveOk then None else Some(CannotSave);
    }

    method FindUser(id: string) returns (i: nat)
      ensures i == IndexOf(users, id)
    {
      i := 0;
      while i < |users| && users[i].id != id
        invariant i <= IndexOf(users, id)
      {
        i := i + 1;
      }
    }

    method FindAndPatch(id: string, role: string, password: string, disabled: Option<bool>, w: World)
      returns (error: Option<Error>)
      modifies this`users
      ensures var op := Update(id, role, password, disabled, w);
        users == Apply(old(users), op) && error == Reply(old(users), op)
    {
      var i := FindUser(id);
      if i == |users| { return Some(NotFound); }
      var n := CountActiveAdmins();
      if ((role != "" && role != "admin") || disabled == Some(true)) && ActiveAdmin(users[i]) && n == 1 {
        return Some(LastAdmin);
      }
      ghost var op := Update(id, role, password, disabled, w);
      ErrorBehindGuard(users, op, i);
      ApplyByError(users, op, i, UpdateError(users, op));
      error := Patch(i, role, password, disabled, w);
    }

    method UpdateUser(id: string, role: string, password: string, disabled: Option<bool>, w: World)
      returns (error: Option<Error>)
      requires Valid()
      modifies this`users
      ensures var op := Update(id, role, password, disabled, w);
        Valid() && users == Apply(old(users), op) && error == Reply(old(users), op)
    {
      UpdateKeepsGood(users, Update(id, role, password, disabled, w));
      error := FindAndPatch(id, role, password, disabled, w);
    }

    method AddAudit(entry: Audit)
      requires Valid()
      modifies this`audits, this`log
      ensures Valid() && log == old(log) + [entry]
    {
      CapIsLast(log, entry);
      audits := audits + [entry];
      if |audits| > MAX_AUDITS { audits := audits[|audits| - MAX_AUDITS..]; }
      log := log + [entry];
    }

    /** The newest entries first, just as if none had ever been dropped. */
    method Audits(limit: int) returns (out: array<Audit>)
      requires Valid()
      ensures fresh(out) && NewestFirst(out[..], log, if 1 <= limit <= 500 then limit else 100)
    {
      var asked := if limit < 1 || limit > 500 then 100 else limit;
      var start := if |audits| - asked < 0 then 0 else |audits| - asked;
      LastOfLast(log, asked, MAX_AUDITS);
      var from := audits[start..];
      out := new Audit[|from|](k requires 0 <= k < |from| => from[k]);
      assert out[..] == from == Last(audits, asked);
      ReverseInPlace(out);
      LastReversed(log, asked);
    }
  }

  method ReverseInPlace<T>(out: array<T>)
    modifies out
    ensures out[..] == Reversed(old(out[..]))
  {
    var i, j := 0, out.Length - 1;
    while i < j
      invariant 0 <= i <= out.Length && i + j == out.Length - 1
      invariant forall k :: 0 <= k < i || j < k < out.Length ==> out[k] == old(out[out.Length - 1 - k])
      invariant forall k :: i <= k <= j ==> out[k] == old(out[k])
    {
      out[i], out[j] := out[j], out[i];
      i, j := i + 1, j - 1;
    }
  }
}
