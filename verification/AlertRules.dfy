/** The alert state machine of internal/alerting/service.go over the rows of internal/alerting/sql_repository.go.
    Instants are nanoseconds; the database keeps milliseconds, rounded down. */
module AlertRules {
  import opened SqlText

  const MILLI := 1_000_000
  const SECOND := 1_000_000_000

  /** millis */
  function Ms(t: int): int { t / MILLI }

  /** timeFromMillis */
  function Ns(ms: int): int { ms * MILLI }

  datatype State = Inactive | Pending | Firing

  datatype Rule = Rule(
    id: nat, name: string, cluster: string, sql: string,
    interval: int, forSeconds: int, webhook: Option<nat>, enabled: bool,
    state: State, activeSince: Option<int>, lastEvaluated: Option<int>, lastValue: string, lastError: string)

  datatype RuleInput = RuleInput(
    name: string, cluster: string, sql: string, interval: int, forSeconds: int, webhook: Option<nat>, enabled: bool)

  /** The result of running the rule's query; a value can come with an error. */
  datatype Outcome = Failed(value: string, error: string) | Result(active: bool, value: string)

  /** The state that an evaluation stores, with instants in nanoseconds. */
  datatype RuleState = RuleState(state: State, activeSince: Option<int>, lastEvaluated: int, lastValue: string,
                                 lastError: string)

  datatype Status = FiringEvent | ResolvedEvent

  /** An event as stored, in milliseconds. */
  datatype Event = Event(ruleId: nat, status: Status, value: string, startedAt: int, endedAt: Option<int>)

  // ---------------------------------------------------------------- one step of a rule

  function CreatedRule(id: nat, input: RuleInput): Rule {
    Rule(id, input.name, input.cluster, input.sql, input.interval, input.forSeconds, input.webhook, input.enabled,
         Inactive, None, None, "", "")
  }

  /** UpdateRule: an edit resets the state but keeps the time of the last evaluation. */
  function EditedRule(rule: Rule, input: RuleInput): Rule {
    rule.(name := input.name, cluster := input.cluster, sql := input.sql, interval := input.interval,
          forSeconds := input.forSeconds, webhook := input.webhook, enabled := input.enabled,
          state := Inactive, activeSince := None, lastError := "")
  }

  /** UpdateRuleState */
  function StoredRule(rule: Rule, s: RuleState): Rule {
    rule.(state := s.state,
          activeSince := match s.activeSince case None => None case Some(t) => Some(Ms(t)),
          lastEvaluated := Some(Ms(s.lastEvaluated)), lastValue := s.lastValue, lastError := s.lastError)
  }

  /** More than two intervals have passed since the last evaluation. */
  predicate LongGap(rule: Rule, now: int) {
    rule.lastEvaluated.None? || now - Ns(rule.lastEvaluated.value) > 2 * rule.interval * SECOND
  }

  /** The state an evaluation starts from: a long gap ends a pending window. */
  function Resumed(rule: Rule, now: int): (State, Option<int>) {
    if rule.state == Pending && LongGap(rule, now) then (Inactive, None)
    else (rule.state, match rule.activeSince case None => None case Some(ms) => Some(Ns(ms)))
  }

  /** truncate */
  function Truncated(text: string): string { if |text| <= 1000 then text else text[..1000] }

  /** evaluate: the state to store. */
  function Evaluated(rule: Rule, outcome: Outcome, now: int): RuleState {
    var (state, since) := Resumed(rule, now);
    match outcome
    case Failed(value, error) =>
      if state == Pending then RuleState(Inactive, None, now, value, Truncated(error))
      else RuleState(state, since, now, value, Truncated(error))
    case Result(active, value) =>
      if !active then RuleState(Inactive, None, now, value, "")
      else
        var pending := if state == Inactive then Pending else state;
        var start := if state == Inactive || since.None? then now else since.value;
        var fires := pending == Pending && now - start >= rule.forSeconds * SECOND;
        RuleState(if fires then Firing else pending, Some(start), now, value, "")
  }

  /** evaluate: the event to emit, if any. */
  function Emitted(rule: Rule, outcome: Outcome, now: int): seq<Event> {
    var (state, since) := Resumed(rule, now);
    var next := Evaluated(rule, outcome, now);
    if outcome.Failed? then []
    else if outcome.active && state != Firing && next.state == Firing then
      [Event(rule.id, FiringEvent, outcome.value, Ms(next.activeSince.value), None)]
    else if !outcome.active && state == Firing then
      [Event(rule.id, ResolvedEvent, outcome.value, Ms(if since.Some? then since.value else now), Some(Ms(now)))]
    else []
  }

  function AfterEvaluation(rule: Rule, outcome: Outcome, now: int): Rule {
    StoredRule(rule, Evaluated(rule, outcome, now))
  }

  // ---------------------------------------------------------------- runs of one rule

  datatype Step = Evaluate(now: int, outcome: Outcome) | Edit(input: RuleInput)

  function After(rule: Rule, step: Step): Rule {
    match step
    case Evaluate(now, outcome) => AfterEvaluation(rule, outcome, now)
    case Edit(input) => EditedRule(rule, input)
  }

  function Emits(rule: Rule, step: Step): seq<Event> {
    match step
    case Evaluate(now, outcome) => Emitted(rule, outcome, now)
    case Edit(_) => []
  }

  function RuleAfter(rule: Rule, steps: seq<Step>): Rule {
    if steps == [] then rule
    else After(RuleAfter(rule, steps[..|steps| - 1]), steps[|steps| - 1])
  }

  function EventsAfter(rule: Rule, steps: seq<Step>): seq<Event> {
    if steps == [] then []
    else
      var before := steps[..|steps| - 1];
      EventsAfter(rule, before) + Emits(RuleAfter(rule, before), steps[|steps| - 1])
  }

  predicate IsTrue(step: Step) { step.Evaluate? && step.outcome.Result? && step.outcome.active }

  lemma MsFloor(t: int)
    ensures Ns(Ms(t)) <= t < Ns(Ms(t)) + MILLI
  {}

  lemma MsBound(t: int, m: int)
    ensures t >= Ns(m) <==> Ms(t) >= m
  {}

  lemma MsNs(m: int)
    ensures Ms(Ns(m)) == m
  {}

  // ---------------------------------------------------------------- the `for` window

  /** From step `j` to the end, every step is an evaluation that succeeded and was true, and no two
      consecutive evaluations are more than two intervals apart. */
  ghost predicate Unbroken(steps: seq<Step>, j: nat, interval: int) {
    && j < |steps|
    && (forall i :: j <= i < |steps| ==> IsTrue(steps[i]))
    && (forall i :: j <= i < |steps| - 1 ==> GapOk(steps[i], steps[i + 1], interval))
  }

  predicate GapOk(a: Step, b: Step, interval: int)
    requires a.Evaluate? && b.Evaluate?
  {
    b.now - Ns(Ms(a.now)) <= 2 * interval * SECOND
  }

  ghost predicate Fresh(rule: Rule) { rule.state == Inactive && rule.activeSince == None }

  /** A pending rule has been true without a break since the evaluation that its ActiveSince names. */
  lemma {:induction false} PendingWindow(rule: Rule, steps: seq<Step>) returns (j: nat)
    requires Fresh(rule) && RuleAfter(rule, steps).state == Pending
    ensures var r := RuleAfter(rule, steps);
      && Unbroken(steps, j, r.interval)
      && r.activeSince == Some(Ms(steps[j].now))
      && r.lastEvaluated == Some(Ms(steps[|steps| - 1].now))
  {
    var n := |steps| - 1;
    var before, last := steps[..n], steps[n];
    var row := RuleAfter(rule, before);
    if row.state == Pending && !LongGap(row, last.now) {
      j := PendingWindow(rule, before);
      assert steps[n - 1] == before[n - 1];
      MsNs(Ms(steps[j].now));
      assert forall i :: j <= i < n ==> steps[i] == before[i];
      assert forall i :: j <= i < n ==> IsTrue(steps[i]);
    } else {
      j := n;
    }
  }

  /** When a run ends by emitting a firing event, the rule was true without a break since ActiveSince,
      and the window from ActiveSince to now is at least `for`. */
  lemma FiringHonoursWindow(rule: Rule, steps: seq<Step>) returns (j: nat)
    requires Fresh(rule) && steps != []
    requires var n := |steps| - 1;
      exists e :: e in Emits(RuleAfter(rule, steps[..n]), steps[n]) && e.status == FiringEvent
    ensures var n := |steps| - 1;
      var r := RuleAfter(rule, steps);
      && Unbroken(steps, j, r.interval)
      && r.state == Firing && r.activeSince == Some(Ms(steps[j].now))
      && Emits(RuleAfter(rule, steps[..n]), steps[n])
         == [Event(r.id, FiringEvent, steps[n].outcome.value, Ms(steps[j].now), None)]
      && (if j == n then r.forSeconds <= 0 else steps[n].now - Ns(Ms(steps[j].now)) >= r.forSeconds * SECOND)
  {
    var n := |steps| - 1;
    var before, last := steps[..n], steps[n];
    var row := RuleAfter(rule, before);
    if row.state == Pending && !LongGap(row, last.now) {
      j := PendingWindow(rule, before);
      assert steps[n - 1] == before[n - 1];
      MsNs(Ms(steps[j].now));
      assert forall i :: j <= i < n ==> steps[i] == before[i];
      assert forall i :: j <= i < n ==> IsTrue(steps[i]);
    } else {
      j := n;
    }
  }

  /** A stored window of at least `f` seconds falls short in real time exactly when it is `f` seconds to the
      millisecond, and the part of a millisecond that rounding took off is larger at its start than at its end. */
  lemma ShortWindow(start: int, end: int, f: int)
    requires Ms(end) - Ms(start) >= 1000 * f
    ensures end - start < f * SECOND <==> Ms(end) == Ms(start) + 1000 * f && end % MILLI < start % MILLI
    ensures end - start > f * SECOND - MILLI
  {
    assert start == Ms(start) * MILLI + start % MILLI && end == Ms(end) * MILLI + end % MILLI;
  }

  /** When a firing event is emitted, the real window since ActiveSince is more than `for` less one millisecond, and
      it is shorter than `for` exactly when the stored window is `for` to the millisecond and the clock stood later in
      its millisecond at the start than now. */
  lemma FiringRealTime(rule: Rule, steps: seq<Step>) returns (j: nat)
    requires Fresh(rule) && steps != []
    requires var n := |steps| - 1;
      exists e :: e in Emits(RuleAfter(rule, steps[..n]), steps[n]) && e.status == FiringEvent
    ensures Unbroken(steps, j, RuleAfter(rule, steps).interval)
    ensures var now, since, f := steps[|steps| - 1].now, steps[j].now, RuleAfter(rule, steps).forSeconds;
      && now - since > f * SECOND - MILLI
      && (now - since < f * SECOND <==> Ms(now) == Ms(since) + 1000 * f && now % MILLI < since % MILLI)
  {
    j := FiringHonoursWindow(rule, steps);
    var now, since, f := steps[|steps| - 1].now, steps[j].now, RuleAfter(rule, steps).forSeconds;
    MsBound(now, Ms(since) + 1000 * f);
    ShortWindow(since, now, f);
  }

  /** In the pending phase an error, a false result or a long gap ends the window: the next window can only
      start at this evaluation, and nothing fires unless `for` is zero. */
  lemma PendingRestarts(rule: Rule, outcome: Outcome, now: int)
    requires rule.state == Pending
    requires outcome.Failed? || !outcome.active || LongGap(rule, now)
    ensures var r := AfterEvaluation(rule, outcome, now);
      && r.activeSince == (if outcome.Result? && outcome.active then Some(Ms(now)) else None)
      && (r.state == Firing ==> outcome.Result? && outcome.active && rule.forSeconds <= 0)
      && (r.activeSince == None ==> r.state == Inactive && Emitted(rule, outcome, now) == [])
  {}

  /** Only a successful false result takes a firing rule out of firing: errors and gaps change nothing. */
  lemma FiringStays(rule: Rule, outcome: Outcome, now: int)
    requires rule.state == Firing
    ensures var r := AfterEvaluation(rule, outcome, now);
      if outcome.Result? && !outcome.active then
        r.state == Inactive && |Emitted(rule, outcome, now)| == 1
          && Emitted(rule, outcome, now)[0].status == ResolvedEvent
      else
        && r.state == Firing && Emitted(rule, outcome, now) == []
        && (rule.activeSince.Some? ==> r.activeSince == rule.activeSince)
  {
    if rule.activeSince.Some? { MsNs(rule.activeSince.value); }
  }

  // ---------------------------------------------------------------- firing latency

  function CeilDiv(a: int, b: int): int
    requires b > 0
  {
    (a + b - 1) / b
  }

  /** The scheduler evaluates a rule no sooner than one interval after the stored time of the last
      evaluation; a pending window survives as long as the gap is at most two intervals. */
  ghost predicate Paced(times: seq<int>, interval: int) {
    forall i :: 0 <= i < |times| - 1 ==>
      interval * SECOND <= times[i + 1] - Ns(Ms(times[i])) <= 2 * interval * SECOND
  }

  function TrueSteps(times: seq<int>): (r: seq<Step>)
    ensures |r| == |times|
    ensures forall i :: 0 <= i < |r| ==> r[i] == Evaluate(times[i], Result(true, "1"))
  {
    seq(|times|, i requires 0 <= i < |times| => Evaluate(times[i], Result(true, "1")))
  }

  /** Stored times of paced evaluations are between one and two intervals apart. */
  lemma PacedStored(a: int, b: int, interval: int)
    requires interval * SECOND <= b - Ns(Ms(a)) <= 2 * interval * SECOND
    ensures 1000 * interval <= Ms(b) - Ms(a) <= 2 * (1000 * interval)
  {
    MsBound(b, Ms(a) + 1000 * interval);
    MsFloor(b);
  }

  lemma {:induction false} PacedSpan(times: seq<int>, interval: int, n: nat)
    requires Paced(times, interval) && n < |times|
    ensures n * (1000 * interval) <= Ms(times[n]) - Ms(times[0]) <= n * (2 * (1000 * interval))
  {
    if n > 0 {
      PacedSpan(times, interval, n - 1);
      PacedStored(times[n - 1], times[n], interval);
      var i := 1000 * interval;
      assert n * i == (n - 1) * i + i && n * (2 * i) == (n - 1) * (2 * i) + 2 * i;
    }
  }

  /** The stored window at evaluation `n` is long enough. */
  ghost predicate WindowFull(times: seq<int>, forSeconds: int, n: nat)
    requires n < |times|
  {
    Ms(times[n]) - Ms(times[0]) >= 1000 * forSeconds
  }

  lemma TrueStepsPrefix(times: seq<int>, n: nat)
    requires n <= |times|
    ensures TrueSteps(times)[..n] == TrueSteps(times[..n])
  {}

  /** After evaluation `n` of a paced run of true results the rule is firing exactly when the stored window
      was full at evaluation `n` or before; until then it is pending since evaluation 0. */
  lemma {:induction false} PacedRun(rule: Rule, times: seq<int>, n: nat)
    requires Fresh(rule) && rule.interval >= 1 && Paced(times, rule.interval) && n < |times|
    ensures var r := RuleAfter(rule, TrueSteps(times[..n + 1]));
      && (r.interval, r.forSeconds) == (rule.interval, rule.forSeconds)
      && r.lastEvaluated == Some(Ms(times[n])) && r.activeSince == Some(Ms(times[0]))
      && r.state == (if WindowFull(times, rule.forSeconds, n) then Firing else Pending)
  {
    var steps := TrueSteps(times[..n + 1]);
    TrueStepsPrefix(times[..n + 1], n);
    assert times[..n + 1][..n] == times[..n];
    assert steps[..n] == TrueSteps(times[..n]);
    if n == 0 {
      assert RuleAfter(rule, steps[..0]) == rule;
    } else {
      PacedRun(rule, times, n - 1);
      var r := RuleAfter(rule, steps[..n]);
      MsNs(Ms(times[0]));
      MsBound(times[n], Ms(times[0]) + 1000 * rule.forSeconds);
      PacedStored(times[n - 1], times[n], rule.interval);
    }
  }

  lemma CeilDivSpec(a: int, b: int)
    requires b > 0
    ensures CeilDiv(a, b) * b >= a && (CeilDiv(a, b) - 1) * b < a
  {
    var q := (a + b - 1) / b;
    assert (a + b - 1) == q * b + (a + b - 1) % b;
    assert (q - 1) * b == q * b - b;
  }

  lemma MulMonotone(x: int, y: int, b: int)
    requires x <= y && b >= 0
    ensures x * b <= y * b
  {}

  function StateAt(rule: Rule, times: seq<int>, k: nat): State
    requires k < |times|
  {
    RuleAfter(rule, TrueSteps(times[..k + 1])).state
  }

  /** Evaluation `n` is the one at which the rule goes to firing. */
  ghost predicate FiresAt(rule: Rule, times: seq<int>, n: nat) {
    && n < |times|
    && StateAt(rule, times, n) == Firing
    && forall k :: 0 <= k < n ==> StateAt(rule, times, k) == Pending
  }

  /** Firing is neither sooner than ceil(for / 2I) evaluations nor later than ceil(for / I). */
  lemma FiringLatency(rule: Rule, times: seq<int>) returns (n: nat)
    requires Fresh(rule) && rule.interval >= 1 && rule.forSeconds >= 0
    requires Paced(times, rule.interval) && |times| > CeilDiv(rule.forSeconds, rule.interval)
    ensures FiresAt(rule, times, n)
    ensures CeilDiv(rule.forSeconds, 2 * rule.interval) <= n <= CeilDiv(rule.forSeconds, rule.interval)
  {
    var last := CeilDiv(rule.forSeconds, rule.interval);
    CeilDivSpec(rule.forSeconds, rule.interval);
    PacedSpan(times, rule.interval, last);
    assert last * (1000 * rule.interval) == 1000 * (last * rule.interval);
    assert WindowFull(times, rule.forSeconds, last);
    n := 0;
    while !WindowFull(times, rule.forSeconds, n)
      invariant n <= last
      invariant forall k :: 0 <= k < n ==> !WindowFull(times, rule.forSeconds, k)
      decreases last - n
    {
      n := n + 1;
    }
    forall k | 0 <= k <= n
      ensures StateAt(rule, times, k) == if k < n then Pending else Firing
    {
      PacedRun(rule, times, k);
    }
    NotSooner(rule, times, n);
  }

  lemma NotSooner(rule: Rule, times: seq<int>, n: nat)
    requires rule.interval >= 1 && Paced(times, rule.interval) && n < |times| && WindowFull(times, rule.forSeconds, n)
    ensures CeilDiv(rule.forSeconds, 2 * rule.interval) <= n
  {
    var d := 2 * rule.interval;
    PacedSpan(times, rule.interval, n);
    assert n * (2 * (1000 * rule.interval)) == 1000 * (n * d);
    CeilDivSpec(rule.forSeconds, d);
    if CeilDiv(rule.forSeconds, d) - 1 >= n { MulMonotone(n, CeilDiv(rule.forSeconds, d) - 1, d); }
  }

  /** Evaluations at whole milliseconds, `gap` seconds apart. */
  function Beats(start: int, gap: int, count: nat): (r: seq<int>)
    ensures |r| == count && forall i :: 0 <= i < count ==> r[i] == Ns(start + i * (1000 * gap))
  {
    seq(count, i => Ns(start + i * (1000 * gap)))
  }

  lemma BeatsPaced(start: int, gap: int, count: nat, interval: int)
    requires interval >= 1 && (gap == interval || gap == 2 * interval)
    ensures Paced(Beats(start, gap, count), interval)
  {
    forall i | 0 <= i < count - 1
      ensures Beats(start, gap, count)[i + 1] - Ns(Ms(Beats(start, gap, count)[i])) == gap * SECOND
    {
      MsNs(start + i * (1000 * gap));
      assert (i + 1) * (1000 * gap) == i * (1000 * gap) + 1000 * gap;
    }
  }

  lemma BeatsFull(start: int, gap: int, count: nat, forSeconds: int, n: nat)
    requires gap >= 1 && n < count
    ensures WindowFull(Beats(start, gap, count), forSeconds, n) <==> n >= CeilDiv(forSeconds, gap)
  {
    MsNs(start);
    MsNs(start + n * (1000 * gap));
    assert n * (1000 * gap) == 1000 * (n * gap);
    assert Beats(start, gap, count)[0] == Ns(start + 0 * (1000 * gap));
    var c := CeilDiv(forSeconds, gap);
    CeilDivSpec(forSeconds, gap);
    if n >= c { MulMonotone(c, n, gap); } else { MulMonotone(n, c - 1, gap); }
  }

  /** Both bounds are reached: beats of one interval fire at ceil(for / I), beats of two at ceil(for / 2I). */
  lemma LatencyIsTight(rule: Rule, start: int, gap: int, count: nat)
    requires Fresh(rule) && rule.interval >= 1 && rule.forSeconds >= 0
    requires gap == rule.interval || gap == 2 * rule.interval
    requires count > CeilDiv(rule.forSeconds, gap) >= 0
    ensures FiresAt(rule, Beats(start, gap, count), CeilDiv(rule.forSeconds, gap))
  {
    var times, n := Beats(start, gap, count), CeilDiv(rule.forSeconds, gap);
    BeatsPaced(start, gap, count, rule.interval);
    forall k | 0 <= k <= n
      ensures StateAt(rule, times, k) == if k < n then Pending else Firing
    {
      PacedRun(rule, times, k);
      BeatsFull(start, gap, count, rule.forSeconds, k);
    }
  }

  // ---------------------------------------------------------------- firing early

  /** Some run of paced true results that begins at `start` fires before `for` has passed on the real clock. */
  ghost predicate CanFireEarly(rule: Rule, start: int) {
    exists times: seq<int>, n: nat ::
      && Paced(times, rule.interval) && FiresAt(rule, times, n)
      && times[0] == start && times[n] - start < rule.forSeconds * SECOND
  }

  lemma EarlyNeedsFraction(rule: Rule, times: seq<int>, n: nat)
    requires Fresh(rule) && rule.interval >= 1 && Paced(times, rule.interval) && FiresAt(rule, times, n)
    requires times[n] - times[0] < rule.forSeconds * SECOND
    ensures rule.forSeconds >= rule.interval && times[0] % MILLI != 0
  {
    PacedRun(rule, times, n);
    ShortWindow(times[0], times[n], rule.forSeconds);
    PacedSpan(times, rule.interval, n);
    assert n != 0;
    MulMonotone(1, n, 1000 * rule.interval);
  }

  /** Evaluations one interval apart at whole milliseconds, but for the first, at `start`, and the last, which comes
      when the stored window is full to the millisecond. */
  function EarlyTimes(start: int, interval: int, forSeconds: int): (r: seq<int>)
    requires forSeconds >= interval >= 1
    ensures |r| == forSeconds / interval + 1 && r[0] == start
    ensures forall k :: 0 < k < |r| - 1 ==> r[k] == Ns(Ms(start) + k * (1000 * interval))
    ensures r[|r| - 1] == Ns(Ms(start) + 1000 * forSeconds)
  {
    var q := forSeconds / interval;
    seq(q + 1, k => if k == 0 then start else if k == q then Ns(Ms(start) + 1000 * forSeconds)
                    else Ns(Ms(start) + k * (1000 * interval)))
  }

  lemma EarlyStored(start: int, interval: int, forSeconds: int, k: nat)
    requires forSeconds >= interval >= 1 && k < forSeconds / interval
    ensures Ms(EarlyTimes(start, interval, forSeconds)[k]) == Ms(start) + k * (1000 * interval)
    ensures k * (1000 * interval) < 1000 * forSeconds
  {
    var q := forSeconds / interval;
    MsNs(Ms(start) + k * (1000 * interval));
    MulMonotone(k, q - 1, interval);
    assert k * (1000 * interval) == 1000 * (k * interval);
    assert q * interval + forSeconds % interval == forSeconds && (q - 1) * interval == q * interval - interval;
  }

  lemma EarlyPaced(start: int, interval: int, forSeconds: int)
    requires forSeconds >= interval >= 1
    ensures Paced(EarlyTimes(start, interval, forSeconds), interval)
  {
    var times, q := EarlyTimes(start, interval, forSeconds), forSeconds / interval;
    forall k | 0 <= k < |times| - 1
      ensures interval * SECOND <= times[k + 1] - Ns(Ms(times[k])) <= 2 * interval * SECOND
    {
      EarlyStored(start, interval, forSeconds, k);
      if k + 1 < q {
        assert (k + 1) * (1000 * interval) == k * (1000 * interval) + 1000 * interval;
      } else {
        assert k == q - 1 && k * (1000 * interval) == 1000 * (q * interval) - 1000 * interval;
        assert q * interval + forSeconds % interval == forSeconds;
      }
    }
  }

  lemma EarlyFires(rule: Rule, start: int)
    requires Fresh(rule) && rule.forSeconds >= rule.interval >= 1
    ensures var times := EarlyTimes(start, rule.interval, rule.forSeconds); FiresAt(rule, times, |times| - 1)
  {
    var times := EarlyTimes(start, rule.interval, rule.forSeconds);
    var q := |times| - 1;
    EarlyPaced(start, rule.interval, rule.forSeconds);
    forall k | 0 <= k <= q
      ensures StateAt(rule, times, k) == if k < q then Pending else Firing
    {
      PacedRun(rule, times, k);
      if k < q {
        EarlyStored(start, rule.interval, rule.forSeconds, k);
      } else {
        MsNs(Ms(start) + 1000 * rule.forSeconds);
      }
    }
  }

  /** Whether a rule can fire early is known when its window begins: exactly when `for` is at least one interval and
      the window does not begin at a whole millisecond. */
  lemma FiresEarlyExactly(rule: Rule, start: int)
    requires Fresh(rule) && rule.interval >= 1
    ensures CanFireEarly(rule, start) <==> rule.forSeconds >= rule.interval && start % MILLI != 0
  {
    if CanFireEarly(rule, start) {
      var times: seq<int>, n: nat :|
        && Paced(times, rule.interval) && FiresAt(rule, times, n)
        && times[0] == start && times[n] - start < rule.forSeconds * SECOND;
      EarlyNeedsFraction(rule, times, n);
    }
    if rule.forSeconds >= rule.interval && start % MILLI != 0 {
      var times := EarlyTimes(start, rule.interval, rule.forSeconds);
      EarlyPaced(start, rule.interval, rule.forSeconds);
      EarlyFires(rule, start);
      assert times[|times| - 1] - start < rule.forSeconds * SECOND;
    }
  }

  /** A rule with `for` and interval of five seconds, whose window begins at the end of a millisecond, fires 999999
      nanoseconds early. */
  lemma FiresEarly(rule: Rule) returns (times: seq<int>)
    requires rule == CreatedRule(1, RuleInput("r", "c", "SELECT 1", 5, 5, None, true))
    ensures |times| == 2 && Paced(times, 5) && FiresAt(rule, times, 1)
    ensures times[0] == 999_999 && times[1] - times[0] == 5 * SECOND - 999_999
  {
    times := EarlyTimes(999_999, 5, 5);
    EarlyPaced(999_999, 5, 5);
    EarlyFires(rule, 999_999);
  }

  // ---------------------------------------------------------------- events pair up

  /** Every resolved event comes right behind the firing event of the same window. */
  ghost predicate Paired(events: seq<Event>) {
    forall k :: 0 <= k < |events| && events[k].status == ResolvedEvent ==>
      k > 0 && events[k - 1].status == FiringEvent && events[k - 1].startedAt == events[k].startedAt
      && events[k].endedAt.Some? && events[k - 1].endedAt == None
  }

  /** A firing rule has just emitted the firing event of its window. */
  ghost predicate FiringIsLogged(rule: Rule, events: seq<Event>) {
    rule.state == Firing ==>
      && events != [] && events[|events| - 1].status == FiringEvent && events[|events| - 1].endedAt == None
      && rule.activeSince == Some(events[|events| - 1].startedAt)
  }

  /** The three things a step can do: say nothing, and then a rule that fires has been firing since the same
      instant; begin to fire; or resolve the window in which the rule fires. */
  lemma EmitsKinds(rule: Rule, step: Step)
    requires rule.state == Firing ==> rule.activeSince.Some?
    ensures var e, next := Emits(rule, step), After(rule, step);
      || (e == [] && (next.state == Firing ==> rule.state == Firing && next.activeSince == rule.activeSince))
      || (|e| == 1 && e[0].status == FiringEvent && e[0].endedAt == None && next.activeSince == Some(e[0].startedAt))
      || (|e| == 1 && e[0].status == ResolvedEvent && e[0].endedAt.Some? && next.state != Firing
          && rule.state == Firing && rule.activeSince == Some(e[0].startedAt))
  {
    if step.Evaluate? && rule.activeSince.Some? { MsNs(rule.activeSince.value); }
  }

  lemma StepKeepsPairs(rule: Rule, events: seq<Event>, step: Step)
    requires Paired(events) && FiringIsLogged(rule, events)
    ensures Paired(events + Emits(rule, step)) && FiringIsLogged(After(rule, step), events + Emits(rule, step))
  {
    EmitsKinds(rule, step);
    PairsGrow(rule, events, Emits(rule, step), After(rule, step));
  }

  lemma PairedAppend(events: seq<Event>, e: Event)
    requires Paired(events)
    requires e.status == ResolvedEvent ==>
      && events != [] && e.endedAt.Some?
      && var last := events[|events| - 1];
         last.status == FiringEvent && last.startedAt == e.startedAt && last.endedAt == None
    ensures Paired(events + [e])
  {}

  lemma PairsGrow(rule: Rule, events: seq<Event>, e: seq<Event>, next: Rule)
    requires Paired(events) && FiringIsLogged(rule, events)
    requires
      || (e == [] && (next.state == Firing ==> rule.state == Firing && next.activeSince == rule.activeSince))
      || (|e| == 1 && e[0].status == FiringEvent && e[0].endedAt == None && next.activeSince == Some(e[0].startedAt))
      || (|e| == 1 && e[0].status == ResolvedEvent && e[0].endedAt.Some? && next.state != Firing
          && rule.state == Firing && rule.activeSince == Some(e[0].startedAt))
    ensures Paired(events + e) && FiringIsLogged(next, events + e)
  {
    if e == [] {
      assert events + e == events;
    } else {
      PairedAppend(events, e[0]);
      assert e == [e[0]];
    }
  }

  /** In every run of evaluations and edits, resolved events pair up with firing events. */
  lemma {:induction false} EventsPairUp(rule: Rule, steps: seq<Step>)
    requires Fresh(rule)
    ensures Paired(EventsAfter(rule, steps)) && FiringIsLogged(RuleAfter(rule, steps), EventsAfter(rule, steps))
    ensures forall e :: e in EventsAfter(rule, steps) ==> e.ruleId == rule.id
    ensures RuleAfter(rule, steps).id == rule.id
  {
    if steps != [] {
      var before := steps[..|steps| - 1];
      EventsPairUp(rule, before);
      StepKeepsPairs(RuleAfter(rule, before), EventsAfter(rule, before), steps[|steps| - 1]);
    }
  }

  /** The statuses alternate, beginning with `first`. */
  ghost predicate Alternates(events: seq<Event>, first: Status) {
    && (events != [] ==> events[0].status == first)
    && forall k :: 0 <= k < |events| - 1 ==> events[k].status != events[k + 1].status
  }

  /** The state tells which event comes next. */
  ghost predicate NextKnown(state: State, events: seq<Event>) {
    && Alternates(events, FiringEvent)
    && (state == Firing <==> events != [] && events[|events| - 1].status == FiringEvent)
  }

  lemma StepAlternates(rule: Rule, events: seq<Event>, now: int, outcome: Outcome)
    requires NextKnown(rule.state, events)
    ensures NextKnown(AfterEvaluation(rule, outcome, now).state, events + Emitted(rule, outcome, now))
  {
    assert events + [] == events;
  }

  /** Without edits the events of a rule strictly alternate, beginning with firing, and the state tells
      which one is next. */
  lemma {:induction false} EventsAlternate(rule: Rule, steps: seq<Step>)
    requires rule.state == Inactive && forall s :: s in steps ==> s.Evaluate?
    ensures NextKnown(RuleAfter(rule, steps).state, EventsAfter(rule, steps))
  {
    if steps != [] {
      var n := |steps| - 1;
      var before := steps[..n];
      assert steps[n] in steps && forall s :: s in before ==> s in steps;
      EventsAlternate(rule, before);
      StepAlternates(RuleAfter(rule, before), EventsAfter(rule, before), steps[n].now, steps[n].outcome);
    }
  }

  lemma RunStep(rule: Rule, steps: seq<Step>, s: Step)
    ensures RuleAfter(rule, steps + [s]) == After(RuleAfter(rule, steps), s)
    ensures EventsAfter(rule, steps + [s]) == EventsAfter(rule, steps) + Emits(RuleAfter(rule, steps), s)
  {
    assert (steps + [s])[..|steps|] == steps;
  }

  lemma {:induction false} RuleSplits(rule: Rule, a: seq<Step>, b: seq<Step>)
    ensures RuleAfter(rule, a + b) == RuleAfter(RuleAfter(rule, a), b)
  {
    if b == [] {
      assert a + b == a;
    } else {
      var b', s := b[..|b| - 1], b[|b| - 1];
      RuleSplits(rule, a, b');
      assert b == b' + [s] && a + b == a + b' + [s];
      RunStep(rule, a + b', s);
      RunStep(RuleAfter(rule, a), b', s);
    }
  }

  lemma Regroup<T>(x: seq<T>, y: seq<T>, z: seq<T>)
    ensures (x + y) + z == x + (y + z)
  {}

  lemma EventsSplitStep(rule: Rule, a: seq<Step>, b: seq<Step>, s: Step, mid: Rule, last: Rule)
    requires mid == RuleAfter(rule, a) && last == RuleAfter(rule, a + b) == RuleAfter(mid, b)
    requires EventsAfter(rule, a + b) == EventsAfter(rule, a) + EventsAfter(mid, b)
    ensures EventsAfter(rule, a + b + [s]) == EventsAfter(rule, a) + EventsAfter(mid, b + [s])
  {
    RunStep(rule, a + b, s);
    RunStep(mid, b, s);
    Regroup(EventsAfter(rule, a), EventsAfter(mid, b), Emits(last, s));
  }

  lemma LastApart<T>(a: seq<T>, b: seq<T>)
    requires b != []
    ensures b == b[..|b| - 1] + [b[|b| - 1]] && a + b == a + b[..|b| - 1] + [b[|b| - 1]]
  {}

  lemma {:induction false} EventsSplit(rule: Rule, a: seq<Step>, b: seq<Step>, mid: Rule)
    requires mid == RuleAfter(rule, a)
    ensures EventsAfter(rule, a + b) == EventsAfter(rule, a) + EventsAfter(mid, b)
  {
    if b == [] {
      assert a + b == a && EventsAfter(mid, b) == [];
      return;
    }
    var b', s := b[..|b| - 1], b[|b| - 1];
    EventsSplit(rule, a, b', mid);
    RuleSplits(rule, a, b');
    EventsSplitStep(rule, a, b', s, mid, RuleAfter(mid, b'));
    LastApart(a, b);
  }

  /** A run is its first part followed by its second part. */
  lemma RunSplits(rule: Rule, a: seq<Step>, b: seq<Step>)
    ensures RuleAfter(rule, a + b) == RuleAfter(RuleAfter(rule, a), b)
    ensures EventsAfter(rule, a + b) == EventsAfter(rule, a) + EventsAfter(RuleAfter(rule, a), b)
  {
    RuleSplits(rule, a, b);
    EventsSplit(rule, a, b, RuleAfter(rule, a));
  }

  /** Between two edits, and from the creation of the rule to its first edit, the events alternate. */
  lemma EventsAlternateBetweenEdits(rule: Rule, a: seq<Step>, b: seq<Step>)
    requires Fresh(rule) && (a == [] || a[|a| - 1].Edit?) && forall s :: s in b ==> s.Evaluate?
    ensures EventsAfter(rule, a) <= EventsAfter(rule, a + b)
    ensures Alternates(EventsAfter(rule, a + b)[|EventsAfter(rule, a)|..], FiringEvent)
  {
    RunSplits(rule, a, b);
    EventsAlternate(RuleAfter(rule, a), b);
    var x, y := EventsAfter(rule, a), EventsAfter(RuleAfter(rule, a), b);
    assert (x + y)[|x|..] == y;
  }
}
