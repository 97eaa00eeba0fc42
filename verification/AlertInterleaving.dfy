/** The scheduler of internal/alerting/service.go together with the stored rules, under every interleaving: an
    evaluation works on the rule as the loop read it, which may be older than the rule as it is stored by then. */
module AlertInterleaving {
  import opened SqlText
  import opened AlertRules
  import opened AlertScheduler

  /** The loop and its evaluations over one repository, without edits. `claimed` keeps, for every rule, the row that
      was stored when its last evaluation was claimed. */
  datatype Plant = Plant(sys: System, rows: map<nat, Rule>, events: map<nat, seq<Event>>, claimed: map<nat, Rule>)

  /** The loop reads the rules, the loop goes on to the next rule it has read, or an evaluation ends; without an
      executor it ends with no outcome. */
  datatype Move = Load(rules: seq<Rule>, now: int) | Step | End(k: nat, now: int, outcome: Option<Outcome>)

  /** What the repository answers: rows as they are stored. */
  ghost predicate Stored(rows: map<nat, Rule>, rules: seq<Rule>) {
    forall r :: r in rules ==> r.id in rows && rows[r.id] == r
  }

  /** The rule that the loop claims in its next turn, if it claims one. */
  function Claim(y: System): Option<Rule> {
    if y.pass.Looping? && y.pass.rest != [] && Due(y.pass.rest[0], y.pass.now) && y.pass.rest[0].id !in y.sched.running
    then Some(y.pass.rest[0]) else None
  }

  ghost function Go(p: Plant, m: Move): Plant {
    match m
    case Load(rules, now) => if Stored(p.rows, rules) then p.(sys := Act(p.sys, Tick(Some(rules), now))) else p
    case Step =>
      var rule := Claim(p.sys);
      p.(sys := Act(p.sys, Next),
         claimed := if rule.None? || rule.value.id !in p.rows then p.claimed
                    else p.claimed[rule.value.id := p.rows[rule.value.id]])
    case End(k, now, outcome) =>
      if k >= |p.sys.sched.inflight| then p
      else
        var rule := p.sys.sched.inflight[k].rule;
        var q := p.(sys := Act(p.sys, Finish(k)));
        if outcome.None? || rule.id !in p.rows || rule.id !in p.events then q
        else
          q.(rows := p.rows[rule.id := StoredRule(p.rows[rule.id], Evaluated(rule, outcome.value, now))],
             events := p.events[rule.id := p.events[rule.id] + Emitted(rule, outcome.value, now)])
  }

  /** New rules, no events, and a loop that has not begun. */
  ghost predicate Begins(p: Plant) {
    && Sound(p.sys.sched) && p.sys.sched.inflight == [] && p.sys.pass == Idle
    && p.events.Keys == p.rows.Keys
    && forall id :: id in p.rows ==> p.rows[id].id == id && p.rows[id].state == Inactive && p.events[id] == []
  }

  ghost function Run(p: Plant, moves: seq<Move>): Plant {
    if moves == [] then p else Go(Run(p, moves[..|moves| - 1]), moves[|moves| - 1])
  }

  // ---------------------------------------------------------------- one evaluation

  /** The rule as the evaluation sees it and the rule as it is stored agree on whether it is firing. */
  predicate Agree(seen: Rule, row: Rule) { seen.state == Firing <==> row.state == Firing }

  /** An evaluation of a stale rule keeps the events alternating, with the state telling which is next, exactly when
      the rule it sees and the stored rule agree on whether it is firing: in every other case an event is doubled or
      lost. */
  lemma StaleStep(seen: Rule, row: Rule, events: seq<Event>, now: int, outcome: Outcome)
    requires NextKnown(row.state, events)
    ensures NextKnown(Evaluated(seen, outcome, now).state, events + Emitted(seen, outcome, now)) <==> Agree(seen, row)
  {
    var e, next := Emitted(seen, outcome, now), Evaluated(seen, outcome, now).state;
    EmittedKinds(seen, outcome, now);
    if e == [] {
      assert events + e == events;
    } else {
      assert events + e == events + [e[0]];
      Extended(events, e[0]);
    }
  }

  /** What an evaluation does to the state and which event it emits. */
  lemma EmittedKinds(rule: Rule, outcome: Outcome, now: int)
    ensures var e, next := Emitted(rule, outcome, now), Evaluated(rule, outcome, now).state;
      || (e == [] && (next == Firing <==> rule.state == Firing))
      || (|e| == 1 && e[0].status == FiringEvent && rule.state != Firing && next == Firing)
      || (|e| == 1 && e[0].status == ResolvedEvent && rule.state == Firing && next != Firing)
  {}

  lemma Extended(events: seq<Event>, e: Event)
    requires Alternates(events, FiringEvent)
    ensures Alternates(events + [e], FiringEvent) <==>
      if events == [] then e.status == FiringEvent else e.status != events[|events| - 1].status
  {
    var all := events + [e];
    assert all[|events|] == e && (events != [] ==> all[|events| - 1] == events[|events| - 1]);
  }

  // ---------------------------------------------------------------- every run

  /** Every evaluation in flight was claimed on the row that is still stored: whatever else runs, only the evaluation
      itself writes the row of its rule. */
  ghost predicate Held(p: Plant) {
    && Sound(p.sys.sched) && p.events.Keys == p.rows.Keys
    && (forall id :: id in p.rows ==> p.rows[id].id == id)
    && (forall i :: 0 <= i < |p.sys.sched.inflight| ==> HeldAt(p, p.sys.sched.inflight[i].rule.id))
    && (p.sys.pass.Looping? ==> forall r :: r in p.sys.pass.rest ==> r.id in p.rows)
  }

  ghost predicate HeldAt(p: Plant, id: nat) { id in p.rows && id in p.claimed && p.rows[id] == p.claimed[id] }

  lemma StepIsHeld(p: Plant)
    requires Held(p)
    ensures Held(Go(p, Step))
  {
    var q, rule := Go(p, Step), Claim(p.sys);
    if rule.None? { return; }
    assert rule.value in p.sys.pass.rest;
    ClaimedIsSound(p.sys.sched, rule.value, p.sys.pass.repo, p.sys.pass.now);
    assert q.sys.sched.inflight == p.sys.sched.inflight + [Flight(rule.value, p.sys.pass.repo)];
  }

  lemma EndIsHeld(p: Plant, k: nat, now: int, outcome: Option<Outcome>)
    requires Held(p) && k < |p.sys.sched.inflight|
    ensures Held(Go(p, End(k, now, outcome)))
  {
    var q, s := Go(p, End(k, now, outcome)), p.sys.sched;
    EndedIsSound(s, k);
    assert HeldAt(p, s.inflight[k].rule.id);
    forall i | 0 <= i < |q.sys.sched.inflight|
      ensures HeldAt(q, q.sys.sched.inflight[i].rule.id)
    {
      var j := if i < k then i else i + 1;
      assert q.sys.sched.inflight[i] == s.inflight[j] && HeldAt(p, s.inflight[j].rule.id);
      assert s.inflight[j].rule.id != s.inflight[k].rule.id;
    }
  }

  lemma GoIsHeld(p: Plant, m: Move)
    requires Held(p)
    ensures Held(Go(p, m)) && Go(p, m).rows.Keys == p.rows.Keys
  {
    match m {
      case Load(_, _) =>
      case Step => StepIsHeld(p);
      case End(k, now, outcome) => if k < |p.sys.sched.inflight| { EndIsHeld(p, k, now, outcome); }
    }
  }

  lemma {:induction false} RunIsHeld(p: Plant, moves: seq<Move>)
    requires Begins(p)
    ensures Held(Run(p, moves)) && Run(p, moves).rows.Keys == p.rows.Keys
  {
    if moves != [] {
      RunIsHeld(p, moves[..|moves| - 1]);
      GoIsHeld(Run(p, moves[..|moves| - 1]), moves[|moves| - 1]);
    }
  }

  /** The events of the rule alternate, and its state tells which is next. */
  ghost predicate InStep(p: Plant, id: nat)
    requires id in p.rows && id in p.events
  {
    NextKnown(p.rows[id].state, p.events[id])
  }

  /** The move ends an evaluation of the rule with an outcome. */
  predicate Ends(p: Plant, m: Move, id: nat) {
    m.End? && m.outcome.Some? && m.k < |p.sys.sched.inflight| && p.sys.sched.inflight[m.k].rule.id == id
  }

  /** If the move ends an evaluation of the rule: that evaluation was claimed on a rule that agreed with the row that
      was stored at the claim. */
  ghost predicate Confirmed(p: Plant, m: Move, id: nat) {
    Ends(p, m, id) ==>
      id in p.claimed && Agree(p.sys.sched.inflight[m.k].rule, p.claimed[id])
  }

  lemma GoInStep(p: Plant, m: Move, id: nat)
    requires Held(p) && id in p.rows && InStep(p, id)
    ensures id in Go(p, m).rows && id in Go(p, m).events
    ensures InStep(Go(p, m), id) <==> Confirmed(p, m, id)
  {
    if Ends(p, m, id) {
      assert HeldAt(p, id);
      StaleStep(p.sys.sched.inflight[m.k].rule, p.rows[id], p.events[id], m.now, m.outcome.value);
    }
  }

  /** After every prefix of the run. */
  ghost predicate AlwaysInStep(p: Plant, moves: seq<Move>, id: nat) {
    var q := Run(p, moves);
    && (moves != [] ==> AlwaysInStep(p, moves[..|moves| - 1], id))
    && id in q.rows && id in q.events && InStep(q, id)
  }

  /** At every move of the run. */
  ghost predicate AlwaysConfirmed(p: Plant, moves: seq<Move>, id: nat) {
    moves != [] ==>
      var before := moves[..|moves| - 1];
      AlwaysConfirmed(p, before, id) && Confirmed(Run(p, before), moves[|moves| - 1], id)
  }

  /** Under every interleaving of the loop and the evaluations, the events of a rule alternate throughout, with the
      state telling which is next, exactly when each of its evaluations was claimed on a rule that agreed with the
      stored row, at the claim, on whether it is firing. */
  lemma {:induction false} AlternatesExactly(p: Plant, moves: seq<Move>, id: nat)
    requires Begins(p) && id in p.rows
    ensures AlwaysInStep(p, moves, id) <==> AlwaysConfirmed(p, moves, id)
  {
    if moves != [] {
      var before, m := moves[..|moves| - 1], moves[|moves| - 1];
      AlternatesExactly(p, before, id);
      if AlwaysInStep(p, before, id) {
        RunIsHeld(p, before);
        GoInStep(Run(p, before), m, id);
      }
    }
  }

  /** No move of the run ends an evaluation of the rule. */
  ghost predicate NoneEnds(p: Plant, moves: seq<Move>, id: nat) {
    moves != [] ==>
      var before := moves[..|moves| - 1];
      NoneEnds(p, before, id) && !Ends(Run(p, before), moves[|moves| - 1], id)
  }

  /** Whatever the loop still holds of the rule is the stored row. */
  ghost predicate UpToDate(p: Plant, id: nat) {
    p.sys.pass.Looping? ==> forall r :: r in p.sys.pass.rest && r.id == id ==> id in p.rows && r == p.rows[id]
  }

  lemma GoUpToDate(p: Plant, m: Move, id: nat)
    requires UpToDate(p, id) && !Ends(p, m, id)
    ensures UpToDate(Go(p, m), id)
  {}

  /** A rule that the loop holds can become stale in one way only: an evaluation of it ends in the meantime. */
  lemma {:induction false} StaleNeedsEnd(p: Plant, moves: seq<Move>, id: nat)
    requires UpToDate(p, id) && NoneEnds(p, moves, id)
    ensures UpToDate(Run(p, moves), id)
  {
    if moves != [] {
      var before := moves[..|moves| - 1];
      StaleNeedsEnd(p, before, id);
      GoUpToDate(Run(p, before), moves[|moves| - 1], id);
    }
  }

  // ---------------------------------------------------------------- two firing events in a row

  lemma RunGo(p: Plant, moves: seq<Move>, m: Move)
    ensures Run(p, moves + [m]) == Go(Run(p, moves), m)
  {
    assert (moves + [m])[..|moves|] == moves;
  }

  lemma RunThree(p: Plant, moves: seq<Move>, x: Move, y: Move, z: Move)
    ensures Run(p, moves + [x] + [y] + [z]) == Go(Go(Go(Run(p, moves), x), y), z)
  {
    RunGo(p, moves, x);
    RunGo(p, moves + [x], y);
    RunGo(p, moves + [x] + [y], z);
  }

  /** A new rule that is due at once and has `for` zero. */
  predicate Eager(rule: Rule) {
    && rule.state == Inactive && rule.activeSince == None && rule.lastEvaluated == None
    && rule.enabled && rule.interval >= 1 && rule.forSeconds <= 0
  }

  function Alone(rule: Rule): Plant {
    Plant(System(STARTED.(repo := Some(0)), Idle), map[rule.id := rule], map[rule.id := []], map[])
  }

  /** The scheduler with one evaluation of the rule in flight. */
  function Busy(rule: Rule): Sched {
    Sched(Some(0), DEFAULT_LIMIT, {rule.id}, [Flight(rule, 0)], [Started(rule.id, 0)])
  }

  /** The loop reads the rule and starts an evaluation. */
  lemma StartsOnce(rule: Rule, now: int)
    requires Eager(rule)
    ensures var p := Go(Go(Alone(rule), Load([rule], now)), Step);
      && p.sys == System(Busy(rule), Looping(0, now, []))
      && p.rows == map[rule.id := rule] && p.events == map[rule.id := []]
  {
    var p := Go(Alone(rule), Load([rule], now));
    assert p.sys == System(STARTED.(repo := Some(0)), Looping(0, now, [rule]));
    assert [rule][1..] == [] && [] + [Flight(rule, 0)] == [Flight(rule, 0)];
    assert {} + {rule.id} == {rule.id} && [] + [Started(rule.id, 0)] == [Started(rule.id, 0)];
  }

  /** The loop comes to the end of its rules and reads the rule again while the evaluation runs. */
  lemma ReadsAgain(p: Plant, rule: Rule, now: int, later: int)
    requires p.sys == System(Busy(rule), Looping(0, now, [])) && p.rows == map[rule.id := rule]
    ensures var q := Go(Go(p, Step), Load([rule], later));
      q == p.(sys := System(Busy(rule), Looping(0, later, [rule])))
  {
    assert Go(p, Step) == p.(sys := System(Busy(rule), Idle));
  }

  lemma ReadTwice(rule: Rule, later: int) returns (moves: seq<Move>)
    requires Eager(rule)
    ensures var p := Run(Alone(rule), moves);
      && p.sys.pass == Looping(0, later, [rule]) && p.sys.sched.inflight == [Flight(rule, 0)]
      && p.rows == map[rule.id := rule] && p.events == map[rule.id := []]
      && p.sys.sched.running == {rule.id}
  {
    var p, first, second := Alone(rule), Load([rule], 0), Load([rule], later);
    StartsOnce(rule, 0);
    ReadsAgain(Go(Go(p, first), Step), rule, 0, later);
    RunGo(p, [], first);
    RunGo(p, [] + [first], Step);
    RunGo(p, [] + [first] + [Step], Step);
    RunGo(p, [] + [first] + [Step] + [Step], second);
    moves := [] + [first] + [Step] + [Step] + [second];
  }

  /** The evaluation ends with a true result, and the loop claims the rule it has read before. */
  lemma ClaimStale(p: Plant, rule: Rule, later: int, now: int, outcome: Outcome) returns (q: Plant)
    requires Eager(rule) && outcome.Result? && outcome.active
    requires p.sys.pass == Looping(0, later, [rule]) && p.sys.sched.inflight == [Flight(rule, 0)]
    requires p.rows == map[rule.id := rule] && p.events == map[rule.id := []] && p.sys.sched.running == {rule.id}
    ensures q == Go(Go(p, End(0, now, Some(outcome))), Step)
    ensures q.sys.sched.inflight == [Flight(rule, 0)] && rule.id in q.rows
    ensures q.events == map[rule.id := Emitted(rule, outcome, now)]
  {
    var mid := Go(p, End(0, now, Some(outcome)));
    assert mid.sys.sched.inflight == [] && mid.sys.sched.running == {} && mid.sys.pass == p.sys.pass;
    assert [] + Emitted(rule, outcome, now) == Emitted(rule, outcome, now);
    assert mid.events == map[rule.id := Emitted(rule, outcome, now)] && rule.id in mid.rows;
    assert Due(rule, later);
    q := Go(mid, Step);
  }

  lemma EagerFires(rule: Rule, now: int, outcome: Outcome)
    requires Eager(rule) && outcome.Result? && outcome.active
    ensures |Emitted(rule, outcome, now)| == 1 && Emitted(rule, outcome, now)[0].status == FiringEvent
  {}

  /** The second evaluation of the stale rule ends. */
  lemma EndStale(q: Plant, rule: Rule, was: int, now: int, outcome: Outcome)
    requires Eager(rule) && outcome.Result? && outcome.active
    requires q.sys.sched.inflight == [Flight(rule, 0)] && rule.id in q.rows
    requires q.events == map[rule.id := Emitted(rule, outcome, was)]
    ensures FiredTwice(Go(q, End(0, now, Some(outcome))), rule.id)
  {
    EagerFires(rule, was, outcome);
    EagerFires(rule, now, outcome);
  }

  predicate FiredTwice(p: Plant, id: nat) {
    && id in p.events && |p.events[id]| == 2
    && p.events[id][0].status == FiringEvent && p.events[id][1].status == FiringEvent
  }

  /** A rule with `for` zero: the loop reads it again while its evaluation runs, and claims what it has read after
      that evaluation has ended. Both evaluations are true and both emit a firing event. */
  lemma FiresTwice(rule: Rule) returns (moves: seq<Move>)
    requires Eager(rule)
    ensures Begins(Alone(rule)) && FiredTwice(Run(Alone(rule), moves), rule.id)
  {
    var p, yes := Alone(rule), Result(true, "1");
    var first, second := End(0, 2000, Some(yes)), End(0, 3000, Some(yes));
    var a := ReadTwice(rule, 1000);
    var q := ClaimStale(Run(p, a), rule, 1000, 2000, yes);
    EndStale(q, rule, 2000, 3000, yes);
    moves := a + [first] + [Step] + [second];
    RunThree(p, a, first, Step, second);
  }
}
