/** The event and delivery tables of internal/alerting/sql_repository.go: rows with increasing ids, read newest
    first and pruned to the newest rows. */
module AlertHistory {

  datatype Row<+T> = Row(id: nat, item: T)

  ghost predicate Increasing<T>(rows: seq<Row<T>>) {
    forall i, j :: 0 <= i < j < |rows| ==> rows[i].id < rows[j].id
  }

  /** DELETE FROM table WHERE id < cutoff */
  function DeleteBelow<T>(rows: seq<Row<T>>, cutoff: nat): seq<Row<T>> {
    if rows == [] then []
    else (if rows[0].id < cutoff then [] else [rows[0]]) + DeleteBelow(rows[1..], cutoff)
  }

  /** Prune on one table: the cutoff is the id at OFFSET limit-1, newest first. */
  function Pruned<T>(rows: seq<Row<T>>, limit: int): seq<Row<T>> {
    if limit < 1 || |rows| < limit then rows else DeleteBelow(rows, rows[|rows| - limit].id)
  }

  /** The newest `limit` rows in the order of insertion. */
  function Tail<T>(rows: seq<Row<T>>, limit: nat): seq<Row<T>> {
    if |rows| <= limit then rows else rows[|rows| - limit..]
  }

  /** ORDER BY id DESC LIMIT limit */
  function Newest<T>(rows: seq<Row<T>>, limit: nat): (r: seq<Row<T>>)
    ensures |r| == if |rows| <= limit then |rows| else limit
  {
    seq(if |rows| <= limit then |rows| else limit, i requires 0 <= i < |rows| => rows[|rows| - 1 - i])
  }

  /** normalizeLimit */
  function NormalizeLimit(value: int, max: int): int {
    if value < 1 || value > max then max else value
  }

  /** The newest rows first: as many as were asked for, or all when there are fewer. */
  ghost predicate NewestFirst<T>(result: seq<Row<T>>, rows: seq<Row<T>>, asked: int) {
    && |result| == (if |rows| < asked then |rows| else asked)
    && forall k :: 0 <= k < |result| ==> result[k] == rows[|rows| - 1 - k]
  }

  /** What a request for some number of rows is taken for, under a limit: the number when it is from one to the limit,
      and the limit otherwise. */
  lemma AskedFor(requested: int, limit: int)
    ensures NormalizeLimit(requested, limit) == if 1 <= requested <= limit then requested else limit
  {}

  lemma NewestIsFirst<T>(rows: seq<Row<T>>, asked: nat)
    ensures NewestFirst(Newest(rows, asked), rows, asked)
  {}

  lemma {:induction false} DeleteNothing<T>(rows: seq<Row<T>>, cutoff: nat)
    requires forall i :: 0 <= i < |rows| ==> rows[i].id >= cutoff
    ensures DeleteBelow(rows, cutoff) == rows
  {
    if rows != [] {
      DeleteNothing(rows[1..], cutoff);
    }
  }

  lemma {:induction false} DeleteIsDrop<T>(rows: seq<Row<T>>, k: nat)
    requires Increasing(rows) && k < |rows|
    ensures DeleteBelow(rows, rows[k].id) == rows[k..]
  {
    if k == 0 {
      assert forall i :: 0 <= i < |rows| ==> rows[i].id >= rows[0].id;
      DeleteNothing(rows, rows[0].id);
    } else {
      DeleteIsDrop(rows[1..], k - 1);
      assert rows[1..][k - 1..] == rows[k..];
    }
  }

  /** Pruning keeps exactly the newest rows. */
  lemma PrunedIsTail<T>(rows: seq<Row<T>>, limit: nat)
    requires Increasing(rows) && limit >= 1
    ensures Pruned(rows, limit) == Tail(rows, limit)
  {
    if |rows| >= limit { DeleteIsDrop(rows, |rows| - limit); }
  }

  lemma TailIncreasing<T>(rows: seq<Row<T>>, limit: nat)
    requires Increasing(rows)
    ensures Increasing(Tail(rows, limit))
  {}

  /** Pruning twice is pruning once with the smaller limit. */
  lemma PruneTwice<T>(rows: seq<Row<T>>, a: nat, b: nat)
    requires Increasing(rows) && a >= 1 && b >= 1
    ensures Pruned(Pruned(rows, a), b) == Pruned(rows, if a <= b then a else b)
  {
    PrunedIsTail(rows, a);
    TailIncreasing(rows, a);
    PrunedIsTail(Tail(rows, a), b);
    PrunedIsTail(rows, if a <= b then a else b);
  }

  /** Appending to the pruned table and pruning again is the same as pruning the whole log. */
  lemma PruneLate<T>(log: seq<Row<T>>, more: seq<Row<T>>, limit: nat)
    requires Increasing(log + more) && limit >= 1
    ensures Pruned(Tail(log, limit) + more, limit) == Tail(log + more, limit)
  {
    var t := Tail(log, limit);
    var k := |log| - |t|;
    assert t == log[k..];
    assert t + more == (log + more)[k..];
    PrunedIsTail(t + more, limit);
  }

  /** A reader who asks for at most `limit` rows cannot tell the pruned table from the whole log. */
  lemma ReadersAgree<T>(log: seq<Row<T>>, limit: nat, asked: nat)
    requires asked <= limit
    ensures Newest(Tail(log, limit), asked) == Newest(log, asked)
  {
    assert forall i :: 0 <= i < |Tail(log, limit)| ==> Tail(log, limit)[i] == log[|log| - |Tail(log, limit)| + i];
  }

  // ---------------------------------------------------------------- whole runs

  /** What one emit appends to a table before it prunes: at most one row per table in the real service. */
  function Emitting<T>(table: seq<Row<T>>, appended: seq<seq<Row<T>>>, limit: int): seq<Row<T>> {
    if appended == [] then table
    else Pruned(Emitting(table, appended[..|appended| - 1], limit) + appended[|appended| - 1], limit)
  }

  function Log<T>(log: seq<Row<T>>, appended: seq<seq<Row<T>>>): seq<Row<T>> {
    if appended == [] then log
    else Log(log, appended[..|appended| - 1]) + appended[|appended| - 1]
  }

  lemma IncreasingPrefix<T>(a: seq<Row<T>>, b: seq<Row<T>>)
    requires Increasing(a + b)
    ensures Increasing(a)
  {
    assert forall i :: 0 <= i < |a| ==> a[i] == (a + b)[i];
  }

  /** After any number of emits under one limit, the table is the tail of the whole log. */
  lemma {:induction false} EmittingIsTail<T>(log: seq<Row<T>>, appended: seq<seq<Row<T>>>, limit: nat)
    requires limit >= 1 && Increasing(Log(log, appended))
    ensures Emitting(Tail(log, limit), appended, limit) == Tail(Log(log, appended), limit)
  {
    if appended != [] {
      var before, last := appended[..|appended| - 1], appended[|appended| - 1];
      IncreasingPrefix(Log(log, before), last);
      EmittingIsTail(log, before, limit);
      PruneLate(Log(log, before), last, limit);
    }
  }

  /** Pruning is invisible: for any requested limit, the answer over the pruned table is the answer over the
      log that was never pruned, and the table never holds more than the limit. */
  lemma PruningIsInvisible<T>(log: seq<Row<T>>, appended: seq<seq<Row<T>>>, limit: nat, requested: int)
    requires limit >= 1 && Increasing(Log(log, appended))
    ensures var table := Emitting(Tail(log, limit), appended, limit);
      var asked := if 1 <= requested <= limit then requested else limit;
      && |table| <= limit
      && NewestFirst(Newest(table, NormalizeLimit(requested, limit)), Log(log, appended), asked)
  {
    EmittingIsTail(log, appended, limit);
    ReadersAgree(Log(log, appended), limit, NormalizeLimit(requested, limit));
    AskedFor(requested, limit);
    NewestIsFirst(Log(log, appended), NormalizeLimit(requested, limit));
  }

  // ---------------------------------------------------------------- the loops over rows

  /** The scan loop of Events and Deliveries: newest first, at most `limit` rows. */
  method ReadNewest<T>(rows: seq<Row<T>>, limit: nat) returns (result: seq<Row<T>>)
    ensures result == Newest(rows, limit)
  {
    result := [];
    var i := |rows|;
    while i > 0 && |result| < limit
      invariant 0 <= i <= |rows| && |result| == |rows| - i <= limit
      invariant forall k :: 0 <= k < |result| ==> result[k] == rows[|rows| - 1 - k]
      decreases i
    {
      i := i - 1;
      result := result + [rows[i]];
    }
  }
}
