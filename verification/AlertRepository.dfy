/** SQLRepository (internal/alerting/sql_repository.go) as tables updated in place, with the ghost history that
    the whole-run theorems are about, and `evaluate` and `emit` of internal/alerting/service.go over it. */
module AlertRepository {
  import opened SqlText
  import opened AlertRules
  import opened AlertEvents
  import opened AlertHistory

  datatype Delivery = Delivery(eventId: nat, ruleId: nat, webhookId: nat, sent: bool, httpStatus: int)

  datatype SendResult = SendResult(ok: bool, httpStatus: int)

  /** The events of one rule, oldest first. */
  function EventsOf(log: seq<Row<Event>>, id: nat): seq<Event> {
    if log == [] then []
    else
      var last := log[|log| - 1].item;
      EventsOf(log[..|log| - 1], id) + (if last.ruleId == id then [last] else [])
  }

  lemma EventsOfAppend(log: seq<Row<Event>>, row: Row<Event>, id: nat)
    ensures EventsOf(log + [row], id) == EventsOf(log, id) + (if row.item.ruleId == id then [row.item] else [])
  {
    assert (log + [row])[..|log|] == log;
  }

  lemma {:induction false} NoEventsOf(log: seq<Row<Event>>, id: nat)
    requires forall r :: r in log ==> r.item.ruleId != id
    ensures EventsOf(log, id) == []
  {
    if log != [] {
      assert log[|log| - 1] in log;
      NoEventsOf(log[..|log| - 1], id);
    }
  }

  /** A table and the log of everything that was ever inserted into it. */
  ghost predicate TableOk<T>(rows: seq<Row<T>>, log: seq<Row<T>>, next: nat) {
    && Increasing(log) && (forall i :: 0 <= i < |log| ==> log[i].id < next)
    && |rows| <= |log| && rows == log[|log| - |rows|..]
  }

  lemma EmptyTable<T>(rows: seq<Row<T>>)
    requires rows == []
    ensures TableOk(rows, rows, 1)
  {}

  lemma NothingToPrune<T>(rows: seq<Row<T>>, limit: nat)
    requires rows == []
    ensures Tail(rows, limit) == rows
  {}

  lemma TableInsert<T>(rows: seq<Row<T>>, log: seq<Row<T>>, next: nat, item: T)
    requires TableOk(rows, log, next)
    ensures TableOk(rows + [Row(next, item)], log + [Row(next, item)], next + 1)
  {
    var r := [Row(next, item)];
    assert (log + r)[|log| - |rows|..] == log[|log| - |rows|..] + r;
  }

  lemma TablePrune<T>(rows: seq<Row<T>>, log: seq<Row<T>>, next: nat, limit: int)
    requires TableOk(rows, log, next)
    ensures TableOk(Pruned(rows, limit), log, next)
    ensures limit >= 1 ==> Pruned(rows, limit) == Tail(rows, limit)
  {
    assert forall i :: 0 <= i < |rows| ==> rows[i] == log[|log| - |rows| + i];
    if limit >= 1 { PrunedIsTail(rows, limit); }
  }

  /** The stored rule, unless it was deleted, and its events are what its creation and its steps make of it. */
  ghost predicate Story(id: nat, input: RuleInput, steps: seq<Step>, rule: Option<Rule>, events: seq<Event>) {
    && (rule.Some? ==> rule.value == RuleAfter(CreatedRule(id, input), steps))
    && events == EventsAfter(CreatedRule(id, input), steps)
  }

  lemma StoryBegins(id: nat, input: RuleInput)
    ensures Story(id, input, [], Some(CreatedRule(id, input)), [])
  {}

  lemma StoryGoesOn(id: nat, input: RuleInput, steps: seq<Step>, rule: Rule, events: seq<Event>, step: Step)
    requires Story(id, input, steps, Some(rule), events)
    ensures Story(id, input, steps + [step], Some(After(rule, step)), events + Emits(rule, step))
  {
    RunStep(CreatedRule(id, input), steps, step);
  }

  lemma StoryEnds(id: nat, input: RuleInput, steps: seq<Step>, rule: Option<Rule>, events: seq<Event>)
    requires Story(id, input, steps, rule, events)
    ensures Story(id, input, steps, None, events)
  {}

  function Lookup(rules: map<nat, Rule>, id: nat): Option<Rule> {
    if id in rules then Some(rules[id]) else None
  }

  /** The stories of all rules that were ever created. */
  ghost predicate Explained(rules: map<nat, Rule>, births: map<nat, RuleInput>, history: map<nat, seq<Step>>,
                            log: seq<Row<Event>>) {
    && rules.Keys <= births.Keys == history.Keys
    && forall id :: id in births ==> Story(id, births[id], history[id], Lookup(rules, id), EventsOf(log, id))
  }

  lemma StoryAt(rules: map<nat, Rule>, births: map<nat, RuleInput>, history: map<nat, seq<Step>>, log: seq<Row<Event>>,
                k: nat)
    requires Explained(rules, births, history, log) && k in births
    ensures Story(k, births[k], history[k], Lookup(rules, k), EventsOf(log, k))
  {}

  /** What happens to one rule leaves the stories of the others alone. */
  lemma StoryElsewhere(rules: map<nat, Rule>, births: map<nat, RuleInput>, history: map<nat, seq<Step>>,
                       log: seq<Row<Event>>, id: nat, rule: Rule, steps: seq<Step>, log': seq<Row<Event>>, k: nat)
    requires Explained(rules, births, history, log) && k in births && k != id && EventsOf(log', k) == EventsOf(log, k)
    ensures Story(k, births[k], history[id := steps][k], Lookup(rules[id := rule], k), EventsOf(log', k))
  {
    StoryAt(rules, births, history, log, k);
  }

  lemma ExplainedStep(rules: map<nat, Rule>, births: map<nat, RuleInput>, history: map<nat, seq<Step>>,
                      log: seq<Row<Event>>, id: nat, rule: Rule, steps: seq<Step>, log': seq<Row<Event>>)
    requires Explained(rules, births, history, log) && id in rules
    requires Story(id, births[id], steps, Some(rule), EventsOf(log', id))
    requires forall k: nat :: k != id ==> EventsOf(log', k) == EventsOf(log, k)
    ensures Explained(rules[id := rule], births, history[id := steps], log')
  {
    var rules', history' := rules[id := rule], history[id := steps];
    assert rules'.Keys == rules.Keys && history'.Keys == history.Keys;
    forall k | k in births
      ensures Story(k, births[k], history'[k], Lookup(rules', k), EventsOf(log', k))
    {
      if k != id { StoryElsewhere(rules, births, history, log, id, rule, steps, log', k); }
    }
  }

  lemma StepKeepsId(rule: Rule, step: Step)
    ensures After(rule, step).id == rule.id && forall e :: e in Emits(rule, step) ==> e.ruleId == rule.id
    ensures |Emits(rule, step)| <= 1
  {}

  lemma ExplainedBirth(rules: map<nat, Rule>, births: map<nat, RuleInput>, history: map<nat, seq<Step>>,
                       log: seq<Row<Event>>, id: nat, input: RuleInput, rule: Rule)
    requires Explained(rules, births, history, log) && id !in births && EventsOf(log, id) == []
    requires rule == CreatedRule(id, input)
    ensures Explained(rules[id := rule], births[id := input], history[id := []], log)
  {
    var rules', births', history' := rules[id := rule], births[id := input], history[id := []];
    forall k | k in births'
      ensures Story(k, births'[k], history'[k], Lookup(rules', k), EventsOf(log, k))
    {
      if k == id {
        StoryBegins(id, input);
      } else {
        assert Story(k, births[k], history[k], Lookup(rules, k), EventsOf(log, k));
        assert Lookup(rules', k) == Lookup(rules, k);
      }
    }
  }

  lemma ExplainedDeath(rules: map<nat, Rule>, births: map<nat, RuleInput>, history: map<nat, seq<Step>>,
                       log: seq<Row<Event>>, id: nat)
    requires Explained(rules, births, history, log)
    ensures Explained(rules - {id}, births, history, log)
  {
    forall k | k in births
      ensures Story(k, births[k], history[k], Lookup(rules - {id}, k), EventsOf(log, k))
    {
      assert Story(k, births[k], history[k], Lookup(rules, k), EventsOf(log, k));
      if k == id {
        StoryEnds(k, births[k], history[k], Lookup(rules, k), EventsOf(log, k));
      } else {
        assert Lookup(rules - {id}, k) == Lookup(rules, k);
      }
    }
  }

  // ---------------------------------------------------------------- the repository as a value

  /** The rules and events of a repository, with everything that ever happened to them. */
  datatype Db = Db(rules: map<nat, Rule>, births: map<nat, RuleInput>, history: map<nat, seq<Step>>,
                   log: seq<Row<Event>>, nextRule: nat, nextEvent: nat)

  const EMPTY_DB := Db(map[], map[], map[], [], 1, 1)

  datatype Op =
    | Create(input: RuleInput)
    | Update(id: nat, input: RuleInput)
    | Delete(id: nat)
    | Run(id: nat, now: int, outcome: Outcome)

  function EmittedRows(rule: Rule, step: Step, next: nat): seq<Row<Event>> {
    var events := Emits(rule, step);
    if events == [] then [] else [Row(next, events[0])]
  }

  function Stepped(db: Db, id: nat, step: Step): Db
    requires id in db.rules && id in db.history
  {
    var rows := EmittedRows(db.rules[id], step, db.nextEvent);
    db.(rules := db.rules[id := After(db.rules[id], step)],
        history := db.history[id := db.history[id] + [step]],
        log := db.log + rows,
        nextEvent := db.nextEvent + |rows|)
  }

  function Apply(db: Db, op: Op): Db {
    match op
    case Create(input) =>
      db.(rules := db.rules[db.nextRule := CreatedRule(db.nextRule, input)],
          births := db.births[db.nextRule := input],
          history := db.history[db.nextRule := []],
          nextRule := db.nextRule + 1)
    case Update(id, input) => if id in db.rules && id in db.history then Stepped(db, id, Step.Edit(input)) else db
    case Delete(id) => db.(rules := db.rules - {id})
    case Run(id, now, outcome) =>
      if id in db.rules && id in db.history then Stepped(db, id, Step.Evaluate(now, outcome)) else db
  }

  function Reached(ops: seq<Op>): Db {
    if ops == [] then EMPTY_DB else Apply(Reached(ops[..|ops| - 1]), ops[|ops| - 1])
  }

  lemma ReachedNext(ops: seq<Op>, op: Op)
    ensures Reached(ops + [op]) == Apply(Reached(ops), op)
  {
    assert (ops + [op])[..|ops|] == ops;
  }

  ghost predicate Good(db: Db) {
    && Explained(db.rules, db.births, db.history, db.log)
    && (forall id :: id in db.births ==> id < db.nextRule)
    && (forall id :: id in db.rules ==> db.rules[id].id == id)
    && (forall r :: r in db.log ==> r.item.ruleId in db.births)
  }

  lemma EventsOfRows(log: seq<Row<Event>>, rule: Rule, step: Step, next: nat)
    ensures var log' := log + EmittedRows(rule, step, next);
      && EventsOf(log', rule.id) == EventsOf(log, rule.id) + Emits(rule, step)
      && forall k: nat :: k != rule.id ==> EventsOf(log', k) == EventsOf(log, k)
  {
    StepKeepsId(rule, step);
    if Emits(rule, step) == [] {
      assert log + [] == log;
    } else {
      var row := Row(next, Emits(rule, step)[0]);
      assert Emits(rule, step)[0] in Emits(rule, step) && Emits(rule, step) == [row.item];
      forall k: nat
        ensures EventsOf(log + [row], k) == EventsOf(log, k) + (if row.item.ruleId == k then [row.item] else [])
      {
        EventsOfAppend(log, row, k);
      }
    }
  }

  lemma SteppedIsExplained(db: Db, id: nat, step: Step, rule: Rule, next: Rule, log: seq<Row<Event>>)
    requires Explained(db.rules, db.births, db.history, db.log) && id in db.rules && rule == db.rules[id]
      && rule.id == id
    requires next == After(rule, step) && log == db.log + EmittedRows(rule, step, db.nextEvent)
    ensures Explained(db.rules[id := next], db.births, db.history[id := db.history[id] + [step]], log)
  {
    EventsOfRows(db.log, rule, step, db.nextEvent);
    StoryAt(db.rules, db.births, db.history, db.log, id);
    StoryGoesOn(id, db.births[id], db.history[id], rule, EventsOf(db.log, id), step);
    ExplainedStep(db.rules, db.births, db.history, db.log, id, next, db.history[id] + [step], log);
  }

  lemma SteppedIsGood(db: Db, id: nat, step: Step)
    requires Good(db) && id in db.rules
    ensures Good(Stepped(db, id, step))
  {
    var rule := db.rules[id];
    var rows := EmittedRows(rule, step, db.nextEvent);
    StepKeepsId(rule, step);
    SteppedIsExplained(db, id, step, rule, After(rule, step), db.log + rows);
    LogStays(db.log, rows, db.births, rule, step, db.nextEvent);
  }

  lemma LogStays(log: seq<Row<Event>>, rows: seq<Row<Event>>, births: map<nat, RuleInput>, rule: Rule, step: Step,
                 next: nat)
    requires rows == EmittedRows(rule, step, next) && rule.id in births
    requires forall r :: r in log ==> r.item.ruleId in births
    ensures forall r :: r in log + rows ==> r.item.ruleId in births
  {
    StepKeepsId(rule, step);
    assert Emits(rule, step) != [] ==> Emits(rule, step)[0] in Emits(rule, step);
    assert forall r :: r in log + rows ==> r in log || r in rows;
  }

  lemma CreatedIsGood(db: Db, input: RuleInput)
    requires Good(db)
    ensures Good(Apply(db, Create(input)))
  {
    NoEventsOf(db.log, db.nextRule);
    ExplainedBirth(db.rules, db.births, db.history, db.log, db.nextRule, input, CreatedRule(db.nextRule, input));
  }

  lemma DeletedIsGood(db: Db, id: nat)
    requires Good(db)
    ensures Good(Apply(db, Delete(id)))
  {
    ExplainedDeath(db.rules, db.births, db.history, db.log, id);
  }

  lemma UpdatedIsGood(db: Db, id: nat, input: RuleInput)
    requires Good(db)
    ensures Good(Apply(db, Update(id, input)))
  {
    if id in db.rules { SteppedIsGood(db, id, Step.Edit(input)); }
  }

  lemma EvaluatedIsGood(db: Db, id: nat, now: int, outcome: Outcome)
    requires Good(db)
    ensures Good(Apply(db, Run(id, now, outcome)))
  {
    if id in db.rules { SteppedIsGood(db, id, Step.Evaluate(now, outcome)); }
  }

  lemma ApplyIsGood(db: Db, op: Op)
    requires Good(db)
    ensures Good(Apply(db, op))
  {
    match op {
      case Create(input) => CreatedIsGood(db, input);
      case Update(id, input) => UpdatedIsGood(db, id, input);
      case Delete(id) => DeletedIsGood(db, id);
      case Run(id, now, outcome) => EvaluatedIsGood(db, id, now, outcome);
    }
  }

  lemma EmptyIsGood()
    ensures Good(EMPTY_DB)
  {}

  /** Every sequence of creations, edits, deletions and evaluations reaches a repository whose rules and events
      are explained by their histories. */
  lemma {:induction false} ReachedIsGood(ops: seq<Op>)
    ensures Good(Reached(ops))
  {
    if ops == [] {
      EmptyIsGood();
    } else {
      ReachedIsGood(ops[..|ops| - 1]);
      ApplyIsGood(Reached(ops[..|ops| - 1]), ops[|ops| - 1]);
    }
  }

  lemma StoryPairs(id: nat, input: RuleInput, steps: seq<Step>, rule: Option<Rule>, events: seq<Event>)
    requires Story(id, input, steps, rule, events)
    ensures Paired(events) && (rule.Some? ==> FiringIsLogged(rule.value, events))
  {
    EventsPairUp(CreatedRule(id, input), steps);
  }

  lemma StoryPending(id: nat, input: RuleInput, steps: seq<Step>, rule: Rule, events: seq<Event>) returns (j: nat)
    requires Story(id, input, steps, Some(rule), events) && rule.state == Pending
    ensures Unbroken(steps, j, rule.interval) && rule.activeSince == Some(Ms(steps[j].now))
  {
    j := PendingWindow(CreatedRule(id, input), steps);
  }

  lemma StoryOf(db: Db, id: nat)
    requires Good(db) && id in db.births
    ensures Story(id, db.births[id], db.history[id], Lookup(db.rules, id), EventsOf(db.log, id))
  {}

  /** In every reachable repository the events of each rule, present or deleted, pair up. */
  lemma ReachedPairs(ops: seq<Op>, id: nat)
    requires id in Reached(ops).births
    ensures var db := Reached(ops);
      Paired(EventsOf(db.log, id)) && (id in db.rules ==> FiringIsLogged(db.rules[id], EventsOf(db.log, id)))
  {
    var db := Reached(ops);
    ReachedIsGood(ops);
    StoryOf(db, id);
    StoryPairs(id, db.births[id], db.history[id], Lookup(db.rules, id), EventsOf(db.log, id));
  }

  /** In every reachable repository a pending rule has been true without a break since its ActiveSince. */
  lemma ReachedPending(ops: seq<Op>, id: nat) returns (j: nat)
    requires id in Reached(ops).rules && Reached(ops).rules[id].state == Pending
    ensures var db := Reached(ops);
      && id in db.history && Unbroken(db.history[id], j, db.rules[id].interval)
      && db.rules[id].activeSince == Some(Ms(db.history[id][j].now))
  {
    var db := Reached(ops);
    ReachedIsGood(ops);
    StoryOf(db, id);
    j := StoryPending(id, db.births[id], db.history[id], db.rules[id], EventsOf(db.log, id));
  }

  /** The fields of a repository are those of the value `db`. */
  ghost predicate Matches(db: Db, rules: map<nat, Rule>, log: seq<Row<Event>>, nextRule: nat, nextEvent: nat) {
    && rules == db.rules && rules.Keys <= db.history.Keys && (forall id :: id in rules ==> rules[id].id == id)
    && log == db.log && nextRule == db.nextRule && nextEvent == db.nextEvent
  }

  lemma EmptyMatches()
    ensures Matches(EMPTY_DB, map[], [], 1, 1)
  {}

  lemma RunMatches(db: Db, rules: map<nat, Rule>, log: seq<Row<Event>>, nextRule: nat, nextEvent: nat,
                   id: nat, now: int, outcome: Outcome)
    requires Matches(db, rules, log, nextRule, nextEvent) && id in rules
    ensures var step := Step.Evaluate(now, outcome);
      var rows := EmittedRows(rules[id], step, nextEvent);
      Matches(Apply(db, Run(id, now, outcome)), rules[id := After(rules[id], step)], log + rows, nextRule,
              nextEvent + |rows|)
  {
    StepKeepsId(rules[id], Step.Evaluate(now, outcome));
  }

  // ---------------------------------------------------------------- the repository in place

  class Repository {
    var rules: map<nat, Rule>
    var events: seq<Row<Event>>
    var deliveries: seq<Row<Delivery>>
    var webhooks: set<nat>
    var nextRule: nat
    var nextEvent: nat
    var nextDelivery: nat
    // everything that was ever inserted, and the repository as a value
    ghost var eventLog: seq<Row<Event>>
    ghost var deliveryLog: seq<Row<Delivery>>
    ghost var db: Db

    ghost predicate Tables()
      reads this
    {
      TableOk(events, eventLog, nextEvent) && TableOk(deliveries, deliveryLog, nextDelivery)
    }

    ghost predicate Valid()
      reads this
    {
      Tables() && Matches(db, rules, eventLog, nextRule, nextEvent)
    }

    /** Both tables hold the newest `limit` rows of everything that was ever inserted. */
    ghost predicate Kept(limit: nat)
      reads this
    {
      events == Tail(eventLog, limit) && deliveries == Tail(deliveryLog, limit)
    }

    constructor ()
      ensures Valid() && db == EMPTY_DB && events == [] && deliveries == []
      ensures forall limit: nat :: Kept(limit)
    {
      var none: seq<Row<Event>>, unsent: seq<Row<Delivery>> := [], [];
      EmptyTable(none);
      EmptyTable(unsent);
      EmptyMatches();
      rules, events, deliveries, webhooks := map[], none, unsent, {};
      nextRule, nextEvent, nextDelivery := 1, 1, 1;
      eventLog, deliveryLog, db := none, unsent, EMPTY_DB;
      new;
      assert Tables();
      assert Matches(db, rules, eventLog, nextRule, nextEvent);
      forall limit: nat
        ensures Kept(limit)
      {
        NothingToPrune(events, limit);
        NothingToPrune(deliveries, limit);
      }
    }

    method CreateRule(input: RuleInput) returns (id: nat)
      requires Valid()
      modifies this`rules, this`nextRule, this`db
      ensures Valid() && id == old(nextRule) && db == Apply(old(db), Create(input))
      ensures nextRule == id + 1 && id in rules && rules == old(rules)[id := rules[id]]
      ensures rules[id].id == id && Follows(rules[id], input) && rules[id].state == Inactive
        && rules[id].lastEvaluated == None
    {
      CreationTells(nextRule, input);
      id := nextRule;
      rules := rules[id := CreatedRule(id, input)];
      nextRule := nextRule + 1;
      db := Apply(db, Create(input));
    }

    method UpdateRule(id: nat, input: RuleInput) returns (found: bool)
      requires Valid()
      modifies this`rules, this`db
      ensures Valid() && (found <==> id in old(rules)) && db == Apply(old(db), Update(id, input))
      ensures !found ==> rules == old(rules)
      ensures found ==>
        && id in rules && rules == old(rules)[id := rules[id]] && Follows(rules[id], input)
        && rules[id].state == Inactive && rules[id].lastEvaluated == old(rules)[id].lastEvaluated
    {
      if id in rules { EditTells(rules[id], input); }
      found := id in rules;
      if found {
        rules := rules[id := EditedRule(rules[id], input)];
        assert db.log + [] == db.log;
      }
      db := Apply(db, Update(id, input));
    }

    /** The id of a deleted rule is not given out again, and its events stay in the log. */
    method DeleteRule(id: nat) returns (found: bool)
      requires Valid()
      modifies this`rules, this`db
      ensures Valid() && (found <==> id in old(rules)) && db == Apply(old(db), Delete(id))
      ensures rules == old(rules) - {id}
    {
      found := id in rules;
      rules := rules - {id};
      db := Apply(db, Delete(id));
    }

    method UpdateRuleState(id: nat, s: RuleState)
      modifies this`rules
      ensures rules == if id in old(rules) then old(rules)[id := StoredRule(old(rules)[id], s)] else old(rules)
    {
      if id in rules {
        rules := rules[id := StoredRule(rules[id], s)];
      }
    }

    method CreateEvent(e: Event) returns (id: nat)
      requires Tables()
      modifies this`events, this`eventLog, this`nextEvent
      ensures Tables() && id == old(nextEvent) && nextEvent == id + 1
      ensures events == old(events) + [Row(id, e)] && eventLog == old(eventLog) + [Row(id, e)]
    {
      id := nextEvent;
      TableInsert(events, eventLog, nextEvent, e);
      events, eventLog, nextEvent := events + [Row(id, e)], eventLog + [Row(id, e)], nextEvent + 1;
    }

    method CreateDelivery(d: Delivery) returns (id: nat)
      requires Tables()
      modifies this`deliveries, this`deliveryLog, this`nextDelivery
      ensures Tables() && id == old(nextDelivery)
      ensures deliveries == old(deliveries) + [Row(id, d)] && deliveryLog == old(deliveryLog) + [Row(id, d)]
    {
      id := nextDelivery;
      TableInsert(deliveries, deliveryLog, nextDelivery, d);
      deliveries, deliveryLog, nextDelivery := deliveries + [Row(id, d)], deliveryLog + [Row(id, d)], nextDelivery + 1;
    }

    method Prune(limit: int)
      requires Tables()
      modifies this`events, this`deliveries
      ensures Tables()
      ensures events == Pruned(old(events), limit) && deliveries == Pruned(old(deliveries), limit)
    {
      TablePrune(events, eventLog, nextEvent, limit);
      TablePrune(deliveries, deliveryLog, nextDelivery, limit);
      if limit < 1 { return; }
      if |events| >= limit {
        events := DeleteBelow(events, events[|events| - limit].id);
      }
      if |deliveries| >= limit {
        deliveries := DeleteBelow(deliveries, deliveries[|deliveries| - limit].id);
      }
    }

    method Events(limit: nat) returns (result: seq<Row<Event>>)
      ensures result == Newest(events, limit)
    {
      result := ReadNewest(events, limit);
    }

    method Deliveries(limit: nat) returns (result: seq<Row<Delivery>>)
      ensures result == Newest(deliveries, limit)
    {
      result := ReadNewest(deliveries, limit);
    }
  }

  /** The rule names a webhook that is stored. */
  predicate Known(rule: Rule, webhooks: set<nat>) { rule.webhook.Some? && rule.webhook.value in webhooks }

  /** The delivery that `deliver` stores for an event. */
  function DeliveryRows(rule: Rule, eventId: nat, deliveryId: nat, known: bool, send: SendResult): seq<Row<Delivery>> {
    if rule.webhook.None? || !known then []
    else [Row(deliveryId, Delivery(eventId, rule.id, rule.webhook.value, send.ok, send.httpStatus))]
  }

  /** Under a constant limit, inserting and then pruning keeps the newest rows of the log. */
  lemma KeptByPruning<T>(rows: seq<Row<T>>, log: seq<Row<T>>, more: seq<Row<T>>, limit: nat)
    requires Increasing(log + more) && limit >= 1 && rows == Tail(log, limit)
    ensures Pruned(rows + more, limit) == Tail(log + more, limit)
  {
    PruneLate(log, more, limit);
  }

  /** One delivery of the event to the webhook of the rule, with the answer that came, when the rule names a webhook
      that is stored; and none otherwise. */
  ghost predicate Delivers(rows: seq<Row<Delivery>>, rule: Rule, eventId: nat, webhooks: set<nat>, send: SendResult) {
    if rule.webhook == None || rule.webhook.value !in webhooks then rows == []
    else
      && |rows| == 1
      && var d := rows[0].item;
      && d.eventId == eventId && d.ruleId == rule.id && d.webhookId == rule.webhook.value
      && d.sent == send.ok && d.httpStatus == send.httpStatus
  }

  /** deliver and storeDelivery: one row for a known webhook, whatever the answer. */
  method Deliver(repo: Repository, rule: Rule, eventId: nat, send: SendResult)
    requires repo.Tables()
    modifies repo`deliveries, repo`deliveryLog, repo`nextDelivery
    ensures repo.Tables()
    ensures var rows := DeliveryRows(rule, eventId, old(repo.nextDelivery), Known(rule, repo.webhooks), send);
      repo.deliveryLog == old(repo.deliveryLog) + rows && repo.deliveries == old(repo.deliveries) + rows
    ensures var rows := DeliveryRows(rule, eventId, old(repo.nextDelivery), Known(rule, repo.webhooks), send);
      Delivers(rows, rule, eventId, repo.webhooks, send)
  {
    if Known(rule, repo.webhooks) {
      var _ := repo.CreateDelivery(Delivery(eventId, rule.id, rule.webhook.value, send.ok, send.httpStatus));
    }
  }

  /** emit: store the event, deliver it, prune. */
  method Emit(repo: Repository, rule: Rule, e: Event, limit: int, send: SendResult)
    requires repo.Tables()
    modifies repo`events, repo`eventLog, repo`nextEvent, repo`deliveries, repo`deliveryLog, repo`nextDelivery
    ensures repo.Tables() && repo.nextEvent == old(repo.nextEvent) + 1
    ensures var row := Row(old(repo.nextEvent), e);
      repo.eventLog == old(repo.eventLog) + [row] && repo.events == Pruned(old(repo.events) + [row], limit)
    ensures var known := Known(rule, repo.webhooks);
      var rows := DeliveryRows(rule, old(repo.nextEvent), old(repo.nextDelivery), known, send);
      && repo.deliveryLog == old(repo.deliveryLog) + rows
      && repo.deliveries == Pruned(old(repo.deliveries) + rows, limit)
      && Delivers(rows, rule, old(repo.nextEvent), repo.webhooks, send)
    ensures limit >= 1 && old(repo.Kept(limit)) ==> repo.Kept(limit)
  {
    var id := repo.CreateEvent(e);
    ghost var row, rows := [Row(id, e)], DeliveryRows(rule, id, repo.nextDelivery, Known(rule, repo.webhooks), send);
    Deliver(repo, rule, id, send);
    repo.Prune(limit);
    if limit >= 1 && old(repo.Kept(limit)) {
      KeptByPruning(old(repo.events), old(repo.eventLog), row, limit);
      KeptByPruning(old(repo.deliveries), old(repo.deliveryLog), rows, limit);
    }
  }

  /** The middle of evaluate, on the local copy of the state: what to store and which event to emit. */
  method Decide(rule: Rule, outcome: Outcome, now: int) returns (s: RuleState, event: Option<Event>)
    ensures s == Evaluated(rule, outcome, now)
    ensures Emitted(rule, outcome, now) == match event case None => [] case Some(e) => [e]
    ensures event.Some? ==> Tells(event.value, rule, Step.Evaluate(now, outcome))
  {
    StepTells(rule, Step.Evaluate(now, outcome));
    var state, since := rule.state, (match rule.activeSince case None => None case Some(ms) => Some(Ns(ms)));
    event := None;
    if state == Pending && LongGap(rule, now) {
      state, since := Inactive, None;
    }
    match outcome {
      case Failed(value, error) =>
        if state == Pending { state, since := Inactive, None; }
        return RuleState(state, since, now, value, Truncated(error)), None;
      case Result(active, value) =>
        if active {
          if state == Inactive { state, since := Pending, Some(now); }
          if since.None? { since := Some(now); }
          if state == Pending && now - since.value >= rule.forSeconds * SECOND {
            state := Firing;
            event := Some(Event(rule.id, FiringEvent, value, Ms(since.value), None));
          }
        } else {
          if state == Firing {
            var started := if since.Some? then since.value else now;
            event := Some(Event(rule.id, ResolvedEvent, value, Ms(started), Some(Ms(now))));
          }
          state, since := Inactive, None;
        }
        return RuleState(state, since, now, value, ""), event;
    }
  }

  /** The deliveries that go with the event rows of one evaluation. */
  function SentRows(rule: Rule, rows: seq<Row<Event>>, deliveryId: nat, known: bool,
                    send: SendResult): seq<Row<Delivery>> {
    if rows == [] then [] else DeliveryRows(rule, rows[0].id, deliveryId, known, send)
  }

  function EventRows(event: Option<Event>, next: nat): seq<Row<Event>> {
    match event case None => [] case Some(e) => [Row(next, e)]
  }

  /** Storing the decision: the event and its delivery, then the state. */
  method Store(repo: Repository, rule: Rule, s: RuleState, event: Option<Event>, limit: int, send: SendResult)
    requires repo.Tables()
    modifies repo`rules, repo`events, repo`eventLog, repo`nextEvent, repo`deliveries, repo`deliveryLog,
             repo`nextDelivery
    ensures repo.Tables()
    ensures var was := old(repo.rules);
      repo.rules == if rule.id in was then was[rule.id := StoredRule(was[rule.id], s)] else was
    ensures var rows := EventRows(event, old(repo.nextEvent));
      && repo.eventLog == old(repo.eventLog) + rows && repo.nextEvent == old(repo.nextEvent) + |rows|
      && repo.events == if rows == [] then old(repo.events) else Pruned(old(repo.events) + rows, limit)
    ensures var rows := EventRows(event, old(repo.nextEvent));
      var sent := SentRows(rule, rows, old(repo.nextDelivery), Known(rule, repo.webhooks), send);
      && repo.deliveryLog == old(repo.deliveryLog) + sent
      && repo.deliveries == if rows == [] then old(repo.deliveries) else Pruned(old(repo.deliveries) + sent, limit)
    ensures limit >= 1 && old(repo.Kept(limit)) ==> repo.Kept(limit)
  {
    if event.Some? {
      Emit(repo, rule, event.value, limit, send);
    } else {
      ghost var none: seq<Row<Event>>, unsent: seq<Row<Delivery>> := [], [];
      assert repo.eventLog + none == repo.eventLog && repo.deliveryLog + unsent == repo.deliveryLog;
    }
    repo.UpdateRuleState(rule.id, s);
  }

  lemma DecisionIsStep(rule: Rule, outcome: Outcome, now: int, s: RuleState, event: Option<Event>, next: nat)
    requires s == Evaluated(rule, outcome, now)
    requires Emitted(rule, outcome, now) == match event case None => [] case Some(e) => [e]
    ensures EmittedRows(rule, Step.Evaluate(now, outcome), next) == EventRows(event, next)
    ensures StoredRule(rule, s) == After(rule, Step.Evaluate(now, outcome)) && StoredRule(rule, s).id == rule.id
  {}

  /** What the rows of one evaluation tell: an event that comes from it, and its delivery. */
  ghost predicate RowsOf(rule: Rule, step: Step, rows: seq<Row<Event>>, sent: seq<Row<Delivery>>, webhooks: set<nat>,
                         send: SendResult) {
    && |rows| <= 1 && (forall row :: row in rows ==> Tells(row.item, rule, step))
    && if rows == [] then sent == [] else Delivers(sent, rule, rows[0].id, webhooks, send)
  }

  lemma RowsTell(rule: Rule, outcome: Outcome, now: int, eventId: nat, deliveryId: nat, webhooks: set<nat>,
                 send: SendResult)
    ensures var step := Step.Evaluate(now, outcome);
      var rows := EmittedRows(rule, step, eventId);
      RowsOf(rule, step, rows, SentRows(rule, rows, deliveryId, Known(rule, webhooks), send), webhooks, send)
  {
    var step := Step.Evaluate(now, outcome);
    StepTells(rule, step);
    assert Emits(rule, step) != [] ==> Emits(rule, step)[0] in Emits(rule, step);
  }

  /** The part of evaluate behind the executor's answer, on the tables. */
  method Conclude(repo: Repository, rule: Rule, outcome: Outcome, now: int, limit: int, send: SendResult)
    requires repo.Tables() && rule.id in repo.rules && repo.rules[rule.id] == rule
    modifies repo`rules, repo`events, repo`eventLog, repo`nextEvent, repo`deliveries, repo`deliveryLog,
             repo`nextDelivery
    ensures repo.Tables()
    ensures repo.rules == old(repo.rules)[rule.id := After(rule, Step.Evaluate(now, outcome))]
    ensures var rows := EmittedRows(rule, Step.Evaluate(now, outcome), old(repo.nextEvent));
      var sent := SentRows(rule, rows, old(repo.nextDelivery), Known(rule, repo.webhooks), send);
      && repo.eventLog == old(repo.eventLog) + rows && repo.nextEvent == old(repo.nextEvent) + |rows|
      && repo.deliveryLog == old(repo.deliveryLog) + sent
      && repo.events == (if rows == [] then old(repo.events) else Pruned(old(repo.events) + rows, limit))
      && repo.deliveries == (if rows == [] then old(repo.deliveries) else Pruned(old(repo.deliveries) + sent, limit))
    ensures limit >= 1 && old(repo.Kept(limit)) ==> repo.Kept(limit)
  {
    var s, event := Decide(rule, outcome, now);
    DecisionIsStep(rule, outcome, now, s, event, repo.nextEvent);
    Store(repo, rule, s, event, limit, send);
  }

  /** evaluate, from the latest stored state of the rule; `outcome` is None when no executor is set. */
  method Evaluate(repo: Repository, id: nat, outcome: Option<Outcome>, now: int, limit: int, send: SendResult)
    requires repo.Valid() && id in repo.rules
    modifies repo
    ensures repo.Valid()
    ensures repo.db == if outcome.None? then old(repo.db) else Apply(old(repo.db), Run(id, now, outcome.value))
    ensures outcome.None? ==> repo.events == old(repo.events) && repo.deliveries == old(repo.deliveries)
    ensures outcome.Some? ==>
      var rows := EmittedRows(old(repo.rules)[id], Step.Evaluate(now, outcome.value), old(repo.nextEvent));
      var known := Known(old(repo.rules)[id], repo.webhooks);
      var sent := SentRows(old(repo.rules)[id], rows, old(repo.nextDelivery), known, send);
      && repo.events == (if rows == [] then old(repo.events) else Pruned(old(repo.events) + rows, limit))
      && repo.deliveries == (if rows == [] then old(repo.deliveries) else Pruned(old(repo.deliveries) + sent, limit))
      && repo.deliveryLog == old(repo.deliveryLog) + sent
      && RowsOf(old(repo.rules)[id], Step.Evaluate(now, outcome.value), rows, sent, repo.webhooks, send)
      && repo.rules == old(repo.rules)[id := After(old(repo.rules)[id], Step.Evaluate(now, outcome.value))]
    ensures limit >= 1 && old(repo.Kept(limit)) ==> repo.Kept(limit)
  {
    if outcome.None? { return; }
    RowsTell(repo.rules[id], outcome.value, now, repo.nextEvent, repo.nextDelivery, repo.webhooks, send);
    Conclude(repo, repo.rules[id], outcome.value, now, limit, send);
    RunMatches(repo.db, old(repo.rules), old(repo.eventLog), repo.nextRule, old(repo.nextEvent), id, now,
               outcome.value);
    repo.db := Apply(repo.db, Run(id, now, outcome.value));
  }

  // ---------------------------------------------------------------- what readers see

  /** Service.Events, under the service's history limit: the answer that the log of everything would give. */
  method ReadEvents(repo: Repository, limit: nat, requested: int) returns (result: seq<Row<Event>>)
    requires limit >= 1
    ensures result == Newest(repo.events, NormalizeLimit(requested, limit))
    ensures repo.Kept(limit) ==>
      NewestFirst(result, repo.eventLog, if 1 <= requested <= limit then requested else limit)
  {
    if repo.Kept(limit) { ReadersAgree(repo.eventLog, limit, NormalizeLimit(requested, limit)); }
    NewestIsFirst(repo.eventLog, NormalizeLimit(requested, limit));
    result := repo.Events(NormalizeLimit(requested, limit));
  }

  /** Service.Deliveries. */
  method ReadDeliveries(repo: Repository, limit: nat, requested: int) returns (result: seq<Row<Delivery>>)
    requires limit >= 1
    ensures result == Newest(repo.deliveries, NormalizeLimit(requested, limit))
    ensures repo.Kept(limit) ==>
      NewestFirst(result, repo.deliveryLog, if 1 <= requested <= limit then requested else limit)
  {
    if repo.Kept(limit) { ReadersAgree(repo.deliveryLog, limit, NormalizeLimit(requested, limit)); }
    NewestIsFirst(repo.deliveryLog, NormalizeLimit(requested, limit));
    result := repo.Deliveries(NormalizeLimit(requested, limit));
  }
}
