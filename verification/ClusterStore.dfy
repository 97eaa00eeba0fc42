/** The encrypted cluster store of internal/clusterconfig/store.go: a record list that is changed in place, saved
    as a whole, and rolled back when the save fails. */
module ClusterStore {
  import opened SqlText
  import opened CaseFold

  /** What sealing keeps: the credentials themselves, or a text that does not open. */
  datatype Credentials = Sealed(user: string, password: string) | Unreadable

  datatype Record = Record(id: string, alias: string, url: string, database: string, credentials: Credentials,
                           createdAt: int, updatedAt: int)

  datatype Config = Config(id: string, alias: string, url: string, user: string, password: string, database: string,
                           createdAt: int, updatedAt: int)

  datatype Input = Input(alias: string, url: string, user: string, password: string, database: string)

  /** What url.Parse finds in the trimmed URL. */
  datatype UrlKind = NotHttp | WithUser | PlainHttp

  /** What the world decides during a call: the URL parser, the cipher, the random source, the disk, the clock. */
  datatype World = World(urlKind: UrlKind, sealOk: bool, freshId: Option<string>, saveOk: bool, now: int)

  datatype Error =
    | BadAlias | BadUrl | UrlHasUser | LongDatabase | BadCredentials
    | AliasTaken | CannotSeal | NoId | CannotSave | AliasFixed | CannotOpen | NotFound

  datatype Result<+T> = Ok(value: T) | Err(error: Error)

  predicate AlphaNum(c: char) { 'A' <= c <= 'Z' || 'a' <= c <= 'z' || '0' <= c <= '9' }

  /** aliasPattern */
  predicate AliasOk(s: string) {
    && 1 <= |s| <= 64 && AlphaNum(s[0])
    && forall k :: 0 <= k < |s| ==> AlphaNum(s[k]) || s[k] == '.' || s[k] == '_' || s[k] == '-'
  }

  function Validate(input: Input, credentials: bool, kind: UrlKind): Option<Error> {
    if !AliasOk(TrimSpace(input.alias)) then Some(BadAlias)
    else if kind == NotHttp then Some(BadUrl)
    else if kind == WithUser then Some(UrlHasUser)
    else if |input.database| > 256 then Some(LongDatabase)
    else if credentials && (TrimSpace(input.user) == "" || |input.user| > 256 || |input.password| > 1024) then
      Some(BadCredentials)
    else None
  }

  function NormalizedDatabase(database: string): string {
    if TrimSpace(database) != "" then TrimSpace(database) else "default"
  }

  function Encrypted(user: string, password: string): Credentials { Sealed(TrimSpace(user), password) }

  function ConfigOf(item: Record): Config
    requires item.credentials.Sealed?
  {
    Config(item.id, item.alias, item.url, item.credentials.user, item.credentials.password, item.database,
           item.createdAt, item.updatedAt)
  }

  // ---------------------------------------------------------------- the store as a value

  /** The records in memory and the last image that reached the disk. */
  datatype Image = Image(mem: seq<Record>, disk: seq<Record>)

  predicate Taken(mem: seq<Record>, alias: string) {
    exists k :: 0 <= k < |mem| && EqualFold(mem[k].alias, alias)
  }

  /** The first record with an id. */
  function IndexOf(mem: seq<Record>, id: string): (r: nat)
    ensures r <= |mem| && (forall k :: 0 <= k < r ==> mem[k].id != id) && (r < |mem| ==> mem[r].id == id)
  {
    if mem == [] then 0 else if mem[0].id == id then 0 else 1 + IndexOf(mem[1..], id)
  }

  function NewRecord(mem: seq<Record>, input: Input, w: World): Result<Record> {
    var invalid := Validate(input, true, w.urlKind);
    if invalid.Some? then Err(invalid.value)
    else if Taken(mem, input.alias) then Err(AliasTaken)
    else if !w.sealOk then Err(CannotSeal)
    else if w.freshId.None? then Err(NoId)
    else Ok(Record(w.freshId.value, TrimSpace(input.alias), TrimSpace(input.url), NormalizedDatabase(input.database),
                   Encrypted(input.user, input.password), w.now, w.now))
  }

  function CreateReply(im: Image, input: Input, w: World): Result<Record> {
    var item := NewRecord(im.mem, input, w);
    if item.Ok? && !w.saveOk then Err(CannotSave) else item
  }

  function AfterCreate(im: Image, input: Input, w: World): Image {
    var reply := CreateReply(im, input, w);
    if reply.Err? then im else Image(im.mem + [reply.value], im.mem + [reply.value])
  }

  /** The record with the new URL and database. */
  function Touched(item: Record, input: Input): Record {
    item.(url := TrimSpace(input.url), database := NormalizedDatabase(input.database))
  }

  function Updated(item: Record, input: Input, credentials: bool, now: int): Record {
    var sealed := if credentials then Encrypted(input.user, input.password) else item.credentials;
    Touched(item, input).(credentials := sealed, updatedAt := now)
  }

  /** The call fails after it has changed the record, and does not change it back. */
  predicate Leaks(im: Image, id: string, input: Input, credentials: bool, w: World) {
    var i := IndexOf(im.mem, id);
    && Validate(input, credentials, w.urlKind).None? && i < |im.mem|
       && (input.alias == "" || input.alias == im.mem[i].alias)
    && (if credentials then !w.sealOk else im.mem[i].credentials.Unreadable?)
  }

  function UpdateReply(im: Image, id: string, input: Input, credentials: bool, w: World): Result<Config> {
    var invalid := Validate(input, credentials, w.urlKind);
    var i := IndexOf(im.mem, id);
    if invalid.Some? then Err(invalid.value)
    else if i == |im.mem| then Err(NotFound)
    else if input.alias != "" && input.alias != im.mem[i].alias then Err(AliasFixed)
    else if credentials && !w.sealOk then Err(CannotSeal)
    else if !credentials && im.mem[i].credentials.Unreadable? then Err(CannotOpen)
    else if !w.saveOk then Err(CannotSave)
    else Ok(ConfigOf(Updated(im.mem[i], input, credentials, w.now)))
  }

  function AfterUpdate(im: Image, id: string, input: Input, credentials: bool, w: World): Image {
    var i := IndexOf(im.mem, id);
    if Leaks(im, id, input, credentials, w) then
      var updatedAt := if credentials then im.mem[i].updatedAt else w.now;
      im.(mem := im.mem[i := Touched(im.mem[i], input).(updatedAt := updatedAt)])
    else if UpdateReply(im, id, input, credentials, w).Err? then im
    else
      var mem := im.mem[i := Updated(im.mem[i], input, credentials, w.now)];
      Image(mem, mem)
  }

  function Without(mem: seq<Record>, i: nat): seq<Record>
    requires i < |mem|
  {
    mem[..i] + mem[i + 1..]
  }

  function DeleteReply(im: Image, id: string, w: World): Option<Error> {
    if IndexOf(im.mem, id) == |im.mem| then Some(NotFound) else if !w.saveOk then Some(CannotSave) else None
  }

  function AfterDelete(im: Image, id: string, w: World): Image {
    if DeleteReply(im, id, w).Some? then im
    else
      var mem := Without(im.mem, IndexOf(im.mem, id));
      Image(mem, mem)
  }

  datatype Op =
    | Create(input: Input, w: World)
    | Update(id: string, input: Input, credentials: bool, w: World)
    | Delete(id: string, w: World)

  function Apply(im: Image, op: Op): Image {
    match op
    case Create(input, w) => AfterCreate(im, input, w)
    case Update(id, input, credentials, w) => AfterUpdate(im, id, input, credentials, w)
    case Delete(id, w) => AfterDelete(im, id, w)
  }

  predicate Succeeds(im: Image, op: Op) {
    match op
    case Create(input, w) => CreateReply(im, input, w).Ok?
    case Update(id, input, credentials, w) => UpdateReply(im, id, input, credentials, w).Ok?
    case Delete(id, w) => DeleteReply(im, id, w).None?
  }

  function Run(im: Image, ops: seq<Op>): Image {
    if ops == [] then im else Apply(Run(im, ops[..|ops| - 1]), ops[|ops| - 1])
  }

  lemma RunNext(im: Image, ops: seq<Op>, op: Op)
    ensures Run(im, []) == im && Run(im, ops + [op]) == Apply(Run(im, ops), op)
  {
    assert (ops + [op])[..|ops|] == ops;
  }

  // ---------------------------------------------------------------- all or nothing

  ghost predicate Readable(mem: seq<Record>) {
    forall k :: 0 <= k < |mem| ==> mem[k].credentials.Sealed?
  }

  /** Memory and disk agree after an operation exactly when it is not an update that fails to seal new credentials
      after it has changed the URL or the database of the record. */
  lemma AllOrNothing(im: Image, op: Op)
    requires im.mem == im.disk && Readable(im.mem)
    ensures Readable(Apply(im, op).mem)
    ensures Apply(im, op).mem == Apply(im, op).disk <==>
      !(op.Update? && op.credentials && Leaks(im, op.id, op.input, true, op.w)
        && Touched(im.mem[IndexOf(im.mem, op.id)], op.input) != im.mem[IndexOf(im.mem, op.id)])
    ensures !Succeeds(im, op) ==> Apply(im, op).disk == im.disk
  {
    var next := Apply(im, op);
    if op.Update? && Leaks(im, op.id, op.input, op.credentials, op.w) {
      var i := IndexOf(im.mem, op.id);
      assert next.mem[i] == Touched(im.mem[i], op.input);
      assert Touched(im.mem[i], op.input) == im.mem[i] ==> next.mem == im.mem;
    }
  }

  /** A successful operation writes all of memory, so it also makes durable what a leak has left behind. */
  lemma SuccessSaves(im: Image, op: Op)
    requires Succeeds(im, op)
    ensures Apply(im, op).mem == Apply(im, op).disk
  {}

  ghost predicate Seals(op: Op) { op.Delete? || op.w.sealOk }

  lemma SealedIsDurable(im: Image, op: Op)
    requires im.mem == im.disk && Readable(im.mem) && Seals(op)
    ensures Apply(im, op).mem == Apply(im, op).disk && Readable(Apply(im, op).mem)
  {
    AllOrNothing(im, op);
  }

  /** From whatever file was opened, over every run in which encryption works, memory is the last durable image and
      every record opens, whichever saves fail. */
  lemma {:induction false} RunIsDurable(im: Image, ops: seq<Op>)
    requires im.mem == im.disk && Readable(im.mem)
    requires forall op :: op in ops ==> Seals(op)
    ensures Run(im, ops).mem == Run(im, ops).disk && Readable(Run(im, ops).mem)
  {
    if ops != [] {
      var init, last := ops[..|ops| - 1], ops[|ops| - 1];
      assert last in ops && forall op :: op in init ==> op in ops;
      RunIsDurable(im, init);
      SealedIsDurable(Run(im, init), last);
    }
  }

  /** One record, and an update with a new URL whose credentials cannot be encrypted: memory has the new URL, the disk
      has the old one. */
  lemma FailedSealLeaks(w: World) returns (im: Image, op: Op)
    requires w.urlKind == PlainHttp && !w.sealOk
    ensures op == Update("1", Input("db", "b", "u", "", ""), true, w)
    ensures im.mem == im.disk == [Record("1", "db", "a", "", Sealed("u", ""), 0, 0)]
    ensures |Apply(im, op).mem| == 1 && Apply(im, op).mem[0].url == "b" && Apply(im, op).disk == im.disk
  {
    TrimFixed("db");
    TrimFixed("b");
    TrimFixed("u");
    var item := Record("1", "db", "a", "", Sealed("u", ""), 0, 0);
    im, op := Image([item], [item]), Update("1", Input("db", "b", "u", "", ""), true, w);
  }

  /** The record that creation stores opens to the trimmed user and to the password as given, and its alias is
      accepted and unchanged by a second trim. */
  lemma CreatedOpens(im: Image, input: Input, w: World)
    requires CreateReply(im, input, w).Ok?
    ensures var config := ConfigOf(CreateReply(im, input, w).value);
      && config.user == TrimSpace(input.user) != "" && config.password == input.password
      && AliasOk(config.alias) && TrimSpace(config.alias) == config.alias == TrimSpace(input.alias)
      && config.database != ""
  {
    TrimFixed(TrimSpace(input.alias));
  }

  /** A successful update keeps the place, the id, the alias and the creation time of its record, keeps the
      credentials unless new ones are given, and leaves every other record alone. */
  lemma UpdateKeeps(im: Image, id: string, input: Input, credentials: bool, w: World)
    requires UpdateReply(im, id, input, credentials, w).Ok?
    ensures var i, next := IndexOf(im.mem, id), AfterUpdate(im, id, input, credentials, w);
      && i < |im.mem| == |next.mem| && next.mem[i].id == id
      && (forall k :: 0 <= k < |im.mem| && k != i ==> next.mem[k] == im.mem[k])
      && next.mem[i].alias == im.mem[i].alias && next.mem[i].createdAt == im.mem[i].createdAt
      && next.mem[i].credentials
         == (if credentials then Sealed(TrimSpace(input.user), input.password) else im.mem[i].credentials)
      && UpdateReply(im, id, input, credentials, w).value == ConfigOf(next.mem[i])
  {}

  // ---------------------------------------------------------------- every answer

  ghost predicate AliasByte(c: char) { 'A' <= c <= 'Z' || 'a' <= c <= 'z' || '0' <= c <= '9' }

  /** A letter or digit, and up to 63 letters, digits, dots, underscores and hyphens behind it. */
  ghost predicate GoodAlias(s: string) {
    && 0 < |s| < 65 && AliasByte(s[0])
    && forall k :: 0 < k < |s| ==> AliasByte(s[k]) || s[k] == '.' || s[k] == '_' || s[k] == '-'
  }

  ghost predicate GoodCredentials(input: Input) {
    TrimSpace(input.user) != "" && |input.user| < 257 && |input.password| < 1025
  }

  /** The reason for which a request is refused before the records are looked at, if there is one. */
  ghost predicate RefusedFor(input: Input, credentials: bool, kind: UrlKind, e: Error) {
    var alias := GoodAlias(TrimSpace(input.alias));
    match e
    case BadAlias => !alias
    case BadUrl => alias && kind == NotHttp
    case UrlHasUser => alias && kind == WithUser
    case LongDatabase => alias && kind == PlainHttp && |input.database| > 256
    case BadCredentials =>
      alias && kind == PlainHttp && |input.database| < 257 && credentials && !GoodCredentials(input)
    case _ => false
  }

  ghost predicate Acceptable(input: Input, credentials: bool, kind: UrlKind) {
    && GoodAlias(TrimSpace(input.alias)) && kind == PlainHttp && |input.database| < 257
    && (credentials ==> GoodCredentials(input))
  }

  lemma GoodAliasIsOk(s: string)
    ensures GoodAlias(s) <==> AliasOk(s)
  {}

  lemma Refusals(input: Input, credentials: bool, kind: UrlKind)
    ensures Validate(input, credentials, kind).None? <==> Acceptable(input, credentials, kind)
    ensures forall e :: Validate(input, credentials, kind) == Some(e) <==> RefusedFor(input, credentials, kind, e)
  {
    GoodAliasIsOk(TrimSpace(input.alias));
  }

  ghost predicate AliasFree(mem: seq<Record>, alias: string) {
    forall k :: 0 <= k < |mem| ==> !EqualFold(mem[k].alias, alias)
  }

  /** When a creation is answered with what. */
  lemma CreateAnswers(im: Image, input: Input, w: World)
    ensures var reply, good := CreateReply(im, input, w), Acceptable(input, true, w.urlKind);
      var free := good && AliasFree(im.mem, input.alias);
      && (forall e :: RefusedFor(input, true, w.urlKind, e) ==> reply == Err(e))
      && (good && !free ==> reply == Err(AliasTaken))
      && (free && !w.sealOk ==> reply == Err(CannotSeal))
      && (free && w.sealOk && w.freshId == None ==> reply == Err(NoId))
      && (free && w.sealOk && w.freshId != None && !w.saveOk ==> reply == Err(CannotSave))
      && (free && w.sealOk && w.freshId != None && w.saveOk ==> reply.Ok?)
      && (reply.Err? ==> AfterCreate(im, input, w) == im)
  {
    Refusals(input, true, w.urlKind);
  }

  /** The record that a creation stores, field by field. */
  lemma CreatedRecord(im: Image, input: Input, w: World)
    requires CreateReply(im, input, w).Ok?
    ensures var item, next := CreateReply(im, input, w).value, AfterCreate(im, input, w);
      && next.mem == next.disk == im.mem + [item]
      && Some(item.id) == w.freshId && item.alias == TrimSpace(input.alias) && item.url == TrimSpace(input.url)
      && item.database == (if TrimSpace(input.database) == "" then "default" else TrimSpace(input.database))
      && item.credentials == Sealed(TrimSpace(input.user), input.password)
      && item.createdAt == w.now && item.updatedAt == w.now
  {}

  /** When an update is answered with what. */
  lemma UpdateAnswers(im: Image, id: string, input: Input, credentials: bool, w: World)
    ensures var reply, good := UpdateReply(im, id, input, credentials, w), Acceptable(input, credentials, w.urlKind);
      && (forall e :: RefusedFor(input, credentials, w.urlKind, e) ==> reply == Err(e))
      && (good && (forall k :: 0 <= k < |im.mem| ==> im.mem[k].id != id) ==> reply == Err(NotFound))
  {
    Refusals(input, credentials, w.urlKind);
  }

  lemma FoundAnswers(im: Image, id: string, input: Input, credentials: bool, w: World, i: nat)
    requires i < |im.mem| && im.mem[i].id == id && forall k :: 0 <= k < i ==> im.mem[k].id != id
    requires Acceptable(input, credentials, w.urlKind)
    ensures var reply := UpdateReply(im, id, input, credentials, w);
      var same := input.alias == "" || input.alias == im.mem[i].alias;
      var opens := same && if credentials then w.sealOk else im.mem[i].credentials != Unreadable;
      && (!same ==> reply == Err(AliasFixed))
      && (same && credentials && !w.sealOk ==> reply == Err(CannotSeal))
      && (same && !credentials && im.mem[i].credentials == Unreadable ==> reply == Err(CannotOpen))
      && (opens && !w.saveOk ==> reply == Err(CannotSave) && AfterUpdate(im, id, input, credentials, w) == im)
      && (opens && w.saveOk ==> reply.Ok?)
  {
    Refusals(input, credentials, w.urlKind);
    FirstIndex(im.mem, id, i);
  }

  /** The record that an update leaves, field by field. */
  lemma UpdatedRecord(im: Image, id: string, input: Input, credentials: bool, w: World, i: nat)
    requires i < |im.mem| && im.mem[i].id == id && forall k :: 0 <= k < i ==> im.mem[k].id != id
    requires UpdateReply(im, id, input, credentials, w).Ok?
    ensures var was, next := im.mem[i], AfterUpdate(im, id, input, credentials, w);
      && next.mem == next.disk && |next.mem| == |im.mem|
      && (forall k :: 0 <= k < |im.mem| && k != i ==> next.mem[k] == im.mem[k])
      && var item := next.mem[i];
      && item.id == id && item.alias == was.alias && item.createdAt == was.createdAt && item.updatedAt == w.now
      && item.url == TrimSpace(input.url)
      && item.database == (if TrimSpace(input.database) == "" then "default" else TrimSpace(input.database))
      && item.credentials == (if credentials then Sealed(TrimSpace(input.user), input.password) else was.credentials)
  {
    FirstIndex(im.mem, id, i);
  }

  /** What an update leaves that fails after it has begun: the new URL and database, in memory alone. */
  lemma LeakedRecord(im: Image, id: string, input: Input, credentials: bool, w: World, i: nat)
    requires i < |im.mem| && im.mem[i].id == id && forall k :: 0 <= k < i ==> im.mem[k].id != id
    requires Acceptable(input, credentials, w.urlKind) && (input.alias == "" || input.alias == im.mem[i].alias)
    requires if credentials then !w.sealOk else im.mem[i].credentials == Unreadable
    ensures var was, next := im.mem[i], AfterUpdate(im, id, input, credentials, w);
      && next.disk == im.disk && |next.mem| == |im.mem|
      && (forall k :: 0 <= k < |im.mem| && k != i ==> next.mem[k] == im.mem[k])
      && var item := next.mem[i];
      && item.id == id && item.alias == was.alias && item.createdAt == was.createdAt
      && item.credentials == was.credentials
      && item.url == TrimSpace(input.url)
      && item.database == (if TrimSpace(input.database) == "" then "default" else TrimSpace(input.database))
      && item.updatedAt == if credentials then was.updatedAt else w.now
  {
    Refusals(input, credentials, w.urlKind);
    FirstIndex(im.mem, id, i);
  }

  /** What a caller gets of a record: all of it, with the credentials opened. */
  lemma ConfigTells(item: Record)
    requires item.credentials.Sealed?
    ensures var c := ConfigOf(item);
      && c.id == item.id && c.alias == item.alias && c.url == item.url && c.database == item.database
      && c.createdAt == item.createdAt && c.updatedAt == item.updatedAt
      && Sealed(c.user, c.password) == item.credentials
  {}

  /** When a deletion is answered with what, and that it takes away the first record with the id and no other. */
  lemma DeleteAnswers(im: Image, id: string, w: World, i: nat)
    requires i <= |im.mem| && (i < |im.mem| ==> im.mem[i].id == id) && forall k :: 0 <= k < i ==> im.mem[k].id != id
    ensures var reply, next := DeleteReply(im, id, w), AfterDelete(im, id, w);
      && (i == |im.mem| ==> reply == Some(NotFound))
      && (i < |im.mem| && !w.saveOk ==> reply == Some(CannotSave))
      && (i < |im.mem| && w.saveOk ==> reply == None && next.mem == next.disk == im.mem[..i] + im.mem[i + 1..])
      && (reply.Some? ==> next == im)
  {
    FirstIndex(im.mem, id, i);
  }

  // ---------------------------------------------------------------- aliases

  ghost predicate DistinctAliases(mem: seq<Record>) {
    forall i, j :: 0 <= i < j < |mem| ==> !EqualFold(mem[i].alias, mem[j].alias)
  }

  /** On its own the store keeps aliases unique exactly when the trimmed alias is free: it compares the alias as it
      was typed, so an alias with blanks around it passes the test. */
  lemma CreateKeepsAliases(im: Image, input: Input, w: World)
    requires DistinctAliases(im.mem) && CreateReply(im, input, w).Ok?
    ensures DistinctAliases(AfterCreate(im, input, w).mem) <==> !Taken(im.mem, TrimSpace(input.alias))
  {
    var mem := AfterCreate(im, input, w).mem;
    var n := |im.mem|;
    assert mem[n].alias == TrimSpace(input.alias);
    if k :| 0 <= k < n && EqualFold(im.mem[k].alias, TrimSpace(input.alias)) {
      assert mem[k] == im.mem[k];
      assert !DistinctAliases(mem);
    }
  }

  /** Two records with the same alias, by way of a leading blank. */
  lemma PaddedAliasPasses(first: Record, input: Input, w: World)
    requires first.alias == "db" && input.alias == " db"
    requires Validate(input, true, w.urlKind).None? && w.sealOk && w.freshId.Some? && w.saveOk
    ensures var mem := AfterCreate(Image([first], [first]), input, w).mem;
      |mem| == 2 && mem[0].alias == mem[1].alias == "db"
  {
    TrimAround(" ", "db", "");
    assert " " + "db" + "" == " db";
    assert |Fold("db")| != |Fold(" db")|;
  }

  // ---------------------------------------------------------------- the store in place

  const BLANK := Record("", "", "", "", Unreadable, 0, 0)

  class Store {
    // the records are buf[..n]; the rest of buf is spare capacity
    var buf: array<Record>
    var n: nat
    var disk: seq<Record>

    ghost predicate Valid()
      reads this
    {
      n <= buf.Length
    }

    ghost function Contents(): seq<Record>
      requires Valid()
      reads this, buf
    {
      buf[..n]
    }

    ghost function View(): Image
      requires Valid()
      reads this, buf
    {
      Image(Contents(), disk)
    }

    /** Open, with what the file holds. */
    constructor (records: seq<Record>)
      ensures Valid() && fresh(buf) && View() == Image(records, records)
    {
      buf := new Record[|records|](i requires 0 <= i < |records| => records[i]);
      n := |records|;
      disk := records;
      new;
      assert buf[..n] == records;
    }

    /** saveLocked */
    method Save(saveOk: bool) returns (ok: bool)
      requires Valid()
      modifies this`disk
      ensures ok == saveOk && disk == if ok then Contents() else old(disk)
    {
      ok := saveOk;
      if ok { disk := buf[..n]; }
    }

    /** append(s.data.Clusters, item) */
    method Append(item: Record)
      requires Valid()
      modifies this`buf, this`n, buf
      ensures Valid() && Contents() == old(Contents()) + [item] && (buf == old(buf) || fresh(buf))
    {
      if n == buf.Length {
        var was := buf[..n];
        var bigger := new Record[2 * n + 1](i requires 0 <= i => if i < |was| then was[i] else BLANK);
        assert bigger[..n] == was;
        buf := bigger;
      }
      buf[n] := item;
      n := n + 1;
    }

    /** The loop of Create over the aliases. */
    method AliasTaken(alias: string) returns (taken: bool)
      requires Valid()
      ensures taken == Taken(Contents(), alias)
    {
      for i := 0 to n
        invariant forall k :: 0 <= k < i ==> !EqualFold(Contents()[k].alias, alias)
      {
        if EqualFold(buf[i].alias, alias) {
          assert EqualFold(Contents()[i].alias, alias);
          return true;
        }
      }
      return false;
    }

    /** The end of Create: the appended slot is taken back when the save fails. */
    method AppendAndSave(item: Record, saveOk: bool) returns (saved: bool)
      requires Valid()
      modifies this, buf
      ensures Valid() && (buf == old(buf) || fresh(buf)) && saved == saveOk
      ensures View() == if saved then Image(old(Contents()) + [item], old(Contents()) + [item]) else old(View())
    {
      ghost var was := Contents();
      Append(item);
      saved := Save(saveOk);
      if !saved {
        n := n - 1;
        assert Contents() == (was + [item])[..|was|];
      }
    }

    method Create(input: Input, w: World) returns (reply: Result<Record>)
      requires Valid()
      modifies this, buf
      ensures Valid() && (buf == old(buf) || fresh(buf))
      ensures reply == CreateReply(old(View()), input, w) && View() == AfterCreate(old(View()), input, w)
    {
      var invalid := Validate(input, true, w.urlKind);
      if invalid.Some? { return Err(invalid.value); }
      var taken := AliasTaken(input.alias);
      if taken { return Err(Error.AliasTaken); }
      if !w.sealOk { return Err(CannotSeal); }
      if w.freshId.None? { return Err(NoId); }
      var item := Record(w.freshId.value, TrimSpace(input.alias), TrimSpace(input.url),
                         NormalizedDatabase(input.database), Encrypted(input.user, input.password), w.now, w.now);
      var saved := AppendAndSave(item, w.saveOk);
      if !saved { return Err(CannotSave); }
      return Ok(item);
    }

    /** The body of the loop of Update, on the record it has found. */
    method Overwrite(i: nat, input: Input, credentials: bool, w: World) returns (reply: Result<Config>)
      requires Valid() && i < n
      modifies this`disk, buf
      ensures var was, item := old(Contents()), old(Contents()[i]);
        if credentials && !w.sealOk then
          reply == Err(CannotSeal) && Contents() == was[i := Touched(item, input)] && disk == old(disk)
        else
          var next := Updated(item, input, credentials, w.now);
          if next.credentials.Unreadable? then
            reply == Err(CannotOpen) && Contents() == was[i := next] && disk == old(disk)
          else if w.saveOk then reply == Ok(ConfigOf(next)) && Contents() == disk == was[i := next]
          else reply == Err(CannotSave) && Contents() == was && disk == old(disk)
    {
      var original := buf[i];
      ghost var was := Contents();
      buf[i] := buf[i].(url := TrimSpace(input.url));
      buf[i] := buf[i].(database := NormalizedDatabase(input.database));
      if credentials {
        if !w.sealOk {
          assert Contents() == was[i := Touched(original, input)];
          return Err(CannotSeal);
        }
        buf[i] := buf[i].(credentials := Encrypted(input.user, input.password));
      }
      buf[i] := buf[i].(updatedAt := w.now);
      assert Contents() == was[i := Updated(original, input, credentials, w.now)];
      if buf[i].credentials.Unreadable? { return Err(CannotOpen); }
      var config := ConfigOf(buf[i]);
      var saved := Save(w.saveOk);
      if !saved {
        buf[i] := original;
        assert Contents() == was;
        return Err(CannotSave);
      }
      return Ok(config);
    }

    method Update(id: string, input: Input, credentials: bool, w: World) returns (reply: Result<Config>)
      requires Valid()
      modifies this`disk, buf
      ensures Valid()
      ensures reply == UpdateReply(old(View()), id, input, credentials, w)
      ensures View() == AfterUpdate(old(View()), id, input, credentials, w)
    {
      var invalid := Validate(input, credentials, w.urlKind);
      if invalid.Some? { return Err(invalid.value); }
      var i := Find(id);
      if i == n { return Err(NotFound); }
      if input.alias != "" && input.alias != buf[i].alias { return Err(AliasFixed); }
      reply := Overwrite(i, input, credentials, w);
    }

    /** The loop that looks for an id. */
    method Find(id: string) returns (i: nat)
      requires Valid()
      ensures i == IndexOf(Contents(), id)
    {
      i := 0;
      while i < n && buf[i].id != id
        invariant i <= n && forall k :: 0 <= k < i ==> Contents()[k].id != id
      {
        i := i + 1;
      }
      FirstIndex(Contents(), id, i);
    }

    /** append(s.data.Clusters[:i], s.data.Clusters[i+1:]...) */
    method CloseGap(i: nat)
      requires Valid() && i < n
      modifies this`n, buf
      ensures Valid() && n == old(n) - 1 && Contents() == Without(old(Contents()), i)
    {
      var j := i;
      while j + 1 < n
        invariant i <= j < n == old(n) <= buf.Length
        invariant forall k :: 0 <= k < i || j <= k < n ==> buf[k] == old(buf[k])
        invariant forall k :: i <= k < j ==> buf[k] == old(buf[k + 1])
      {
        buf[j] := buf[j + 1];
        j := j + 1;
      }
      n := n - 1;
    }

    /** copy(s.data.Clusters[i+1:], s.data.Clusters[i:]) */
    method ShiftUp(i: nat)
      requires Valid() && i < n
      modifies buf
      ensures forall k :: 0 <= k <= i ==> buf[k] == old(buf[k])
      ensures forall k :: i < k < n ==> buf[k] == old(buf[k - 1])
    {
      var j := n - 1;
      while j > i
        invariant i <= j < n
        invariant forall k :: 0 <= k <= j ==> buf[k] == old(buf[k])
        invariant forall k :: j < k < n ==> buf[k] == old(buf[k - 1])
      {
        buf[j] := buf[j - 1];
        j := j - 1;
      }
    }

    /** The rollback of a deletion: one more slot at the end, the shift, and the item. */
    method Reopen(i: nat, item: Record)
      requires Valid() && i <= n < buf.Length
      modifies this`n, buf
      ensures Valid() && n == old(n) + 1 && Contents() == old(Contents())[..i] + [item] + old(Contents())[i..]
    {
      ghost var was := Contents();
      buf[n] := BLANK;
      n := n + 1;
      assert buf[..n] == was + [BLANK];
      ShiftUp(i);
      buf[i] := item;
      assert buf[..i] == was[..i] && buf[i + 1..n] == was[i..];
    }

    method Delete(id: string, w: World) returns (reply: Option<Error>)
      requires Valid()
      modifies this`n, this`disk, buf
      ensures Valid()
      ensures reply == DeleteReply(old(View()), id, w) && View() == AfterDelete(old(View()), id, w)
    {
      var i := Find(id);
      if i == n { return Some(NotFound); }
      var item := buf[i];
      ghost var was := Contents();
      CloseGap(i);
      var saved := Save(w.saveOk);
      if !saved {
        Reopen(i, item);
        GapRefilled(was, i);
        return Some(CannotSave);
      }
      return None;
    }

    /** Configs */
    method Configs() returns (reply: Result<seq<Config>>)
      requires Valid()
      ensures reply.Ok? <==> Readable(Contents())
      ensures reply.Ok? ==>
        && |reply.value| == n
        && forall k :: 0 <= k < n ==> Contents()[k].credentials.Sealed? && reply.value[k] == ConfigOf(Contents()[k])
    {
      var out: seq<Config> := [];
      for i := 0 to n
        invariant |out| == i
        invariant forall k :: 0 <= k < i ==> Contents()[k].credentials.Sealed? && out[k] == ConfigOf(Contents()[k])
      {
        if buf[i].credentials.Unreadable? {
          assert Contents()[i].credentials.Unreadable?;
          return Err(CannotOpen);
        }
        out := out + [ConfigOf(buf[i])];
      }
      return Ok(out);
    }
  }

  lemma {:induction false} FirstIndex(mem: seq<Record>, id: string, i: nat)
    requires i <= |mem| && (forall k :: 0 <= k < i ==> mem[k].id != id) && (i < |mem| ==> mem[i].id == id)
    ensures IndexOf(mem, id) == i
  {}

  lemma GapRefilled(mem: seq<Record>, i: nat)
    requires i < |mem|
    ensures var rest := Without(mem, i); rest[..i] + [mem[i]] + rest[i..] == mem
  {}
}
