/** What the rows and the events of internal/alerting/service.go tell: which evaluation an event comes from, when it
    begins and ends, and what an edit leaves in the row. Instants of evaluations are nanoseconds, stored ones
    milliseconds. */
module AlertEvents {
  import opened SqlText
  import opened AlertRules

  // ---------------------------------------------------------------- one evaluation

  /** The stored millisecond in which the instant lies. */
  ghost predicate Within(now: int, ms: int) { 1_000_000 * ms <= now < 1_000_000 * (ms + 1) }

  lemma WithinIsMs(now: int)
    ensures Within(now, Ms(now)) && forall ms :: Within(now, ms) ==> ms == Ms(now)
  {}

  /** What an evaluation stores besides the state: when it ran, its value, and the error cut to a thousand bytes. */
  lemma EvaluationStores(rule: Rule, outcome: Outcome, now: int)
    ensures var r := After(rule, Evaluate(now, outcome));
      && r.lastEvaluated.Some? && Within(now, r.lastEvaluated.value) && r.lastValue == outcome.value
      && (outcome.Result? ==> r.lastError == "")
      && (outcome.Failed? ==> r.lastError == if |outcome.error| < 1000 then outcome.error else outcome.error[..1000])
      && r.id == rule.id && r.name == rule.name && r.cluster == rule.cluster && r.sql == rule.sql
      && r.interval == rule.interval && r.forSeconds == rule.forSeconds && r.webhook == rule.webhook
      && r.enabled == rule.enabled
  {
    WithinIsMs(now);
  }

  /** What the row takes from the state that is stored, and that it keeps all else. */
  lemma StoringTells(rule: Rule, s: RuleState)
    ensures var r := StoredRule(rule, s);
      && r.state == s.state && r.lastValue == s.lastValue && r.lastError == s.lastError
      && r.lastEvaluated.Some? && Within(s.lastEvaluated, r.lastEvaluated.value)
      && (s.activeSince == None ==> r.activeSince == None)
      && (s.activeSince != None ==> r.activeSince.Some? && Within(s.activeSince.value, r.activeSince.value))
      && r.id == rule.id && r.name == rule.name && r.cluster == rule.cluster && r.sql == rule.sql
      && r.interval == rule.interval && r.forSeconds == rule.forSeconds && r.webhook == rule.webhook
      && r.enabled == rule.enabled
  {
    WithinIsMs(s.lastEvaluated);
    if s.activeSince.Some? { WithinIsMs(s.activeSince.value); }
  }

  /** More than two intervals have passed since the last evaluation, or there was none. */
  ghost predicate Stale(rule: Rule, now: int) {
    rule.lastEvaluated.None? || now - 1_000_000 * rule.lastEvaluated.value > 2_000_000_000 * rule.interval
  }

  /** The rule is in the middle of a window that this evaluation may complete. */
  ghost predicate Waiting(rule: Rule, now: int) { rule.state == Pending && !Stale(rule, now) }

  /** The seconds of `for` have passed since the stored instant, if there is one. */
  ghost predicate LongEnough(rule: Rule, since: Option<int>, now: int) {
    (if since.Some? then now - 1_000_000 * since.value else 0) >= 1_000_000_000 * rule.forSeconds
  }

  /** When a rule fires, waits or rests after an evaluation. */
  lemma StateAfter(rule: Rule, outcome: Outcome, now: int)
    ensures var r := After(rule, Evaluate(now, outcome));
      var true' := outcome.Result? && outcome.active;
      && (r.state == Firing <==>
            || (rule.state == Firing && (outcome.Failed? || true'))
            || (true' && rule.state != Firing
              && LongEnough(rule, if Waiting(rule, now) then rule.activeSince else None, now)))
      && (r.state == Pending <==> true' && r.state != Firing)
  {}

  /** Since when: a window that goes on keeps its beginning, and a new one begins now. */
  lemma SinceAfter(rule: Rule, outcome: Outcome, now: int)
    ensures var r := After(rule, Evaluate(now, outcome));
      var goesOn := rule.activeSince.Some? && (rule.state == Firing || Waiting(rule, now));
      && (outcome.Result? && outcome.active ==>
            r.activeSince.Some? && if goesOn then r.activeSince == rule.activeSince
              else Within(now, r.activeSince.value))
      && (outcome.Result? && !outcome.active ==> r.activeSince == None)
      && (outcome.Failed? && rule.state == Firing ==> r.activeSince == rule.activeSince)
      && (outcome.Failed? && rule.state == Pending ==> r.activeSince == None)
  {
    WithinIsMs(now);
    if rule.activeSince.Some? { MsNs(rule.activeSince.value); }
  }

  // ---------------------------------------------------------------- edits

  /** The row says what the input says. */
  ghost predicate Follows(rule: Rule, input: RuleInput) {
    && rule.name == input.name && rule.cluster == input.cluster && rule.sql == input.sql
    && rule.interval == input.interval && rule.forSeconds == input.forSeconds && rule.webhook == input.webhook
    && rule.enabled == input.enabled
  }

  /** A new rule rests, and has never been evaluated. */
  lemma CreationTells(id: nat, input: RuleInput)
    ensures var r := CreatedRule(id, input);
      && r.id == id && Follows(r, input) && r.state == Inactive && r.activeSince == None && r.lastEvaluated == None
      && r.lastValue == "" && r.lastError == ""
  {}

  /** An edit puts the rule to rest, forgets its error and keeps what its last evaluation found. */
  lemma EditTells(rule: Rule, input: RuleInput)
    ensures var r := After(rule, Edit(input));
      && r.id == rule.id && Follows(r, input) && r.state == Inactive && r.activeSince == None && r.lastError == ""
      && r.lastEvaluated == rule.lastEvaluated && r.lastValue == rule.lastValue
  {}

  /** In every run the row follows the last edit, or the creation when there was none. */
  lemma {:induction false} LastEditRules(id: nat, input: RuleInput, steps: seq<Step>) returns (n: nat)
    ensures n <= |steps| && (n > 0 ==> steps[n - 1].Edit?) && forall k :: n <= k < |steps| ==> steps[k].Evaluate?
    ensures Follows(RuleAfter(CreatedRule(id, input), steps), if n == 0 then input else steps[n - 1].input)
    ensures RuleAfter(CreatedRule(id, input), steps).id == id
  {
    if steps == [] {
      n := 0;
    } else {
      var before, last := steps[..|steps| - 1], steps[|steps| - 1];
      n := LastEditRules(id, input, before);
      if last.Edit? { n := |steps|; }
    }
  }

  // ---------------------------------------------------------------- which step an event comes from

  /** The event is the one that step `n` of the run has emitted. */
  ghost predicate ComesFrom(rule: Rule, steps: seq<Step>, k: nat, n: nat) {
    && n < |steps| && k < |EventsAfter(rule, steps)|
    && |EventsAfter(rule, steps[..n])| == k && |EventsAfter(rule, steps[..n + 1])| == k + 1
    && EventsAfter(rule, steps[..n + 1])[k] == EventsAfter(rule, steps)[k]
  }

  /** What the event of a step says: a successful evaluation emits it, true for a firing event and false for a
      resolved one, with the value that it found; a resolved event ends when it was evaluated. */
  ghost predicate Tells(e: Event, rule: Rule, step: Step) {
    && step.Evaluate? && step.outcome.Result? && e.ruleId == rule.id && e.value == step.outcome.value
    && (e.status == FiringEvent <==> step.outcome.active)
    && (e.status == FiringEvent ==> e.endedAt == None)
    && (e.status == ResolvedEvent ==> e.endedAt.Some? && Within(step.now, e.endedAt.value))
  }

  lemma StepTells(rule: Rule, step: Step)
    ensures |Emits(rule, step)| <= 1 && forall e :: e in Emits(rule, step) ==> Tells(e, rule, step)
  {
    if step.Evaluate? { WithinIsMs(step.now); }
  }

  /** Every event of a run comes from one step of it, and tells what that step found. */
  lemma {:induction false} EventTells(rule: Rule, steps: seq<Step>, k: nat) returns (n: nat)
    requires k < |EventsAfter(rule, steps)|
    ensures ComesFrom(rule, steps, k, n) && Tells(EventsAfter(rule, steps)[k], rule, steps[n])
  {
    var last := |steps| - 1;
    var before := steps[..last];
    var row := RuleAfter(rule, before);
    StepTells(row, steps[last]);
    SameId(rule, before);
    if k < |EventsAfter(rule, before)| {
      n := EventTells(rule, before, k);
      assert before[..n] == steps[..n] && before[..n + 1] == steps[..n + 1];
    } else {
      n := last;
      assert steps[..n + 1] == steps;
      assert EventsAfter(rule, steps)[k] == Emits(row, steps[n])[0];
    }
  }

  lemma {:induction false} SameId(rule: Rule, steps: seq<Step>)
    ensures RuleAfter(rule, steps).id == rule.id
  {
    if steps != [] { SameId(rule, steps[..|steps| - 1]); }
  }

  // ---------------------------------------------------------------- events in order of time

  /** The clock never goes back from one evaluation to a later one. */
  ghost predicate Clock(steps: seq<Step>) {
    forall i, j :: 0 <= i < j < |steps| && steps[i].Evaluate? && steps[j].Evaluate? ==> steps[i].now <= steps[j].now
  }

  /** No event begins before an earlier one begins or ends, and none ends before it begins. */
  ghost predicate InOrder(events: seq<Event>) {
    && (forall k :: 0 <= k < |events| && events[k].endedAt.Some? ==> events[k].startedAt <= events[k].endedAt.value)
    && (forall k, l :: 0 <= k < l < |events| ==> events[k].startedAt <= events[l].startedAt)
    && (forall k, l :: 0 <= k < l < |events| && events[k].endedAt.Some? ==>
       events[k].endedAt.value <= events[l].startedAt)
  }

  /** Everything in the events lies before `t`. */
  ghost predicate Before(events: seq<Event>, t: int) {
    forall k :: 0 <= k < |events| ==>
      events[k].startedAt <= t && (events[k].endedAt.Some? ==> events[k].endedAt.value <= t)
  }

  /** The window of the rule begins behind all that its events tell of. */
  ghost predicate Behind(rule: Rule, events: seq<Event>, t: int) {
    && (rule.state == Inactive ==> rule.activeSince == None)
    && (rule.activeSince.Some? ==> rule.activeSince.value <= t && Before(events, rule.activeSince.value))
  }

  lemma MsMonotone(a: int, b: int)
    requires a <= b
    ensures Ms(a) <= Ms(b)
  {}

  /** At most one event is put behind the others, and it lies behind them in time. */
  lemma OneMoreEvent(events: seq<Event>, e: Event, t: int)
    requires InOrder(events) && Before(events, e.startedAt)
    requires e.startedAt <= t && (e.endedAt.Some? ==> e.startedAt <= e.endedAt.value <= t)
    ensures InOrder(events + [e]) && Before(events + [e], t)
  {
    var all := events + [e];
    assert forall k :: 0 <= k < |events| ==> all[k] == events[k];
    assert all[|events|] == e;
  }

  /** Where an evaluation puts its event. */
  lemma StepPlaces(rule: Rule, events: seq<Event>, now: int, outcome: Outcome, t: int)
    requires t == Ms(now) && Behind(rule, events, t) && Before(events, t)
    requires rule.state != Inactive ==> rule.activeSince.Some?
    ensures forall e :: e in Emits(rule, Evaluate(now, outcome)) ==>
      && Before(events, e.startedAt) && e.startedAt <= t
      && (e.endedAt.Some? ==> e.startedAt <= e.endedAt.value <= t)
    ensures var next := After(rule, Evaluate(now, outcome));
      && (next.state == Inactive <==> next.activeSince == None)
      && (next.activeSince.Some? ==> next.activeSince.value <= t && Before(events, next.activeSince.value))
      && forall e :: e in Emits(rule, Evaluate(now, outcome)) ==>
           if e.status == FiringEvent then next.activeSince == Some(e.startedAt) else next.activeSince == None
  {
    if rule.activeSince.Some? { MsNs(rule.activeSince.value); }
  }

  lemma StepInOrder(rule: Rule, events: seq<Event>, now: int, outcome: Outcome, t: int)
    requires t == Ms(now) && Behind(rule, events, t) && Before(events, t) && InOrder(events)
    requires rule.state != Inactive ==> rule.activeSince.Some?
    ensures var next, all := After(rule, Evaluate(now, outcome)), events + Emits(rule, Evaluate(now, outcome));
      && InOrder(all) && Before(all, t) && Behind(next, all, t) && (next.state != Inactive ==> next.activeSince.Some?)
  {
    var step := Evaluate(now, outcome);
    StepPlaces(rule, events, now, outcome, t);
    StepTells(rule, step);
    if Emits(rule, step) == [] {
      assert events + Emits(rule, step) == events;
    } else {
      var e := Emits(rule, step)[0];
      assert e in Emits(rule, step) && Emits(rule, step) == [e];
      OneMoreEvent(events, e, t);
      if e.status == FiringEvent { OneMoreEvent(events, e, e.startedAt); }
    }
  }

  /** Under a clock that does not go back, in every run of evaluations and edits, no event ends before it begins, and
      none begins before an earlier one begins or ends. */
  lemma {:induction false} EventsInOrder(rule: Rule, steps: seq<Step>, m: int)
    requires Fresh(rule) && Clock(steps) && forall i :: 0 <= i < |steps| && steps[i].Evaluate? ==> steps[i].now <= m
    ensures InOrder(EventsAfter(rule, steps)) && Before(EventsAfter(rule, steps), Ms(m))
    ensures Behind(RuleAfter(rule, steps), EventsAfter(rule, steps), Ms(m))
    ensures RuleAfter(rule, steps).state != Inactive ==> RuleAfter(rule, steps).activeSince.Some?
  {
    if steps != [] {
      var before, last := steps[..|steps| - 1], steps[|steps| - 1];
      var row, events := RuleAfter(rule, before), EventsAfter(rule, before);
      assert forall i :: 0 <= i < |before| ==> before[i] == steps[i];
      if last.Edit? {
        EventsInOrder(rule, before, m);
        assert events + [] == events;
      } else {
        EventsInOrder(rule, before, last.now);
        StepInOrder(row, events, last.now, last.outcome, Ms(last.now));
        MsMonotone(last.now, m);
      }
    }
  }
}
