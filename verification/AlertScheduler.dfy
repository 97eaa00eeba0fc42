/** The scheduler of internal/alerting/service.go: which rules are claimed, which evaluations are in flight, and
    which repository is in use, under every interleaving of the loop, the evaluations and the configuration. */
module AlertScheduler {
  import opened SqlText
  import opened AlertRules

  /** An evaluation that was started and has not yet given its claim back. Repositories are known by a number. */
  datatype Flight = Flight(rule: Rule, repo: nat)

  datatype Mark = Started(id: nat, repo: nat) | Finished(id: nat)

  /** The fields of the service, its evaluations in flight, and the trace of their starts and ends. */
  datatype Sched = Sched(repo: Option<nat>, limit: int, running: set<nat>, inflight: seq<Flight>, trace: seq<Mark>)

  const DEFAULT_LIMIT := 300

  const STARTED := Sched(None, DEFAULT_LIMIT, {}, [], [])

  predicate Due(rule: Rule, now: int) {
    && rule.enabled && rule.interval >= 1
    && (rule.lastEvaluated.Some? ==> now >= Ns(rule.lastEvaluated.value) + rule.interval * SECOND)
  }

  /** The rule is switched on, and its interval has passed since the stored millisecond of its last evaluation. */
  ghost predicate IsDue(rule: Rule, now: int) {
    && rule.enabled && rule.interval > 0
    && (rule.lastEvaluated == None || now >= 1_000_000 * rule.lastEvaluated.value + 1_000_000_000 * rule.interval)
  }

  lemma DueIsDue(rule: Rule, now: int)
    ensures Due(rule, now) <==> IsDue(rule, now)
  {}

  /** One turn of the loop over the rules: the test and the claim are one critical section. */
  function Claimed(s: Sched, rule: Rule, repo: nat, now: int): Sched {
    if !Due(rule, now) || rule.id in s.running then s
    else s.(running := s.running + {rule.id},
            inflight := s.inflight + [Flight(rule, repo)],
            trace := s.trace + [Started(rule.id, repo)])
  }

  /** The deferred end of the k-th evaluation in flight. */
  function Ended(s: Sched, k: nat): Sched
    requires k < |s.inflight|
  {
    var id := s.inflight[k].rule.id;
    s.(running := s.running - {id},
       inflight := s.inflight[..k] + s.inflight[k + 1..],
       trace := s.trace + [Finished(id)])
  }

  function Configured(s: Sched, repo: Option<nat>, limit: int): Sched {
    s.(repo := repo, limit := if limit < 1 then DEFAULT_LIMIT else limit)
  }

  function Disabled(s: Sched): Sched { s.(repo := None) }

  // ---------------------------------------------------------------- every interleaving

  /** What the loop is doing: waiting, or going over a list of rules it has read some time ago. */
  datatype Pass = Idle | Looping(repo: nat, now: int, rest: seq<Rule>)

  datatype System = System(sched: Sched, pass: Pass)

  /** A tick may read any list of rules, or fail to read one. */
  datatype Action =
    | Tick(rules: Option<seq<Rule>>, now: int)
    | Next
    | Finish(k: nat)
    | Configure(repo: Option<nat>, limit: int)
    | Disable

  function Act(y: System, a: Action): System {
    match a
    case Tick(rules, now) =>
      if y.pass.Looping? || y.sched.repo.None? || rules.None? then y
      else y.(pass := Looping(y.sched.repo.value, now, rules.value))
    case Next =>
      if y.pass.Idle? then y
      else if y.pass.rest == [] then y.(pass := Idle)
      else System(Claimed(y.sched, y.pass.rest[0], y.pass.repo, y.pass.now), y.pass.(rest := y.pass.rest[1..]))
    case Finish(k) => if k < |y.sched.inflight| then y.(sched := Ended(y.sched, k)) else y
    case Configure(repo, limit) => y.(sched := Configured(y.sched, repo, limit))
    case Disable => y.(sched := Disabled(y.sched))
  }

  function Run(actions: seq<Action>): System {
    if actions == [] then System(STARTED, Idle)
    else Act(Run(actions[..|actions| - 1]), actions[|actions| - 1])
  }

  lemma RunNext(actions: seq<Action>, a: Action)
    ensures Run(actions + [a]) == Act(Run(actions), a)
  {
    assert (actions + [a])[..|actions|] == actions;
  }

  /** The running set is exactly the set of rules with an evaluation in flight, and no rule has two. */
  ghost predicate Exclusive(s: Sched) {
    && (forall i, j :: 0 <= i < j < |s.inflight| ==> s.inflight[i].rule.id != s.inflight[j].rule.id)
    && (forall i :: 0 <= i < |s.inflight| ==> s.inflight[i].rule.id in s.running)
    && (forall id :: id in s.running ==> InFlight(s, id))
  }

  ghost predicate InFlight(s: Sched, id: nat) { exists i :: 0 <= i < |s.inflight| && s.inflight[i].rule.id == id }

  /** The rules that a trace has started and not yet finished. */
  function Open(trace: seq<Mark>): set<nat> {
    if trace == [] then {}
    else match trace[|trace| - 1]
      case Started(id, _) => Open(trace[..|trace| - 1]) + {id}
      case Finished(id) => Open(trace[..|trace| - 1]) - {id}
  }

  /** No rule starts while it is open, and only an open rule finishes. */
  ghost predicate Orderly(trace: seq<Mark>) {
    trace != [] ==>
      var before := trace[..|trace| - 1];
      && Orderly(before)
      && match trace[|trace| - 1]
         case Started(id, _) => id !in Open(before)
         case Finished(id) => id in Open(before)
  }

  ghost predicate Sound(s: Sched) { Exclusive(s) && s.running == Open(s.trace) && Orderly(s.trace) && s.limit >= 1 }

  lemma ClaimedIsSound(s: Sched, rule: Rule, repo: nat, now: int)
    requires Sound(s)
    ensures Sound(Claimed(s, rule, repo, now))
  {
    var t := Claimed(s, rule, repo, now);
    if t != s {
      assert t.trace[..|t.trace| - 1] == s.trace;
      assert t.inflight[|s.inflight|].rule.id == rule.id;
      forall id | id in t.running
        ensures InFlight(t, id)
      {
        if id != rule.id {
          var i :| 0 <= i < |s.inflight| && s.inflight[i].rule.id == id;
          assert t.inflight[i].rule.id == id;
        }
      }
    }
  }

  /** Where the flight at `i` was before the one at `k` was taken out. */
  function Before(i: nat, k: nat): nat { if i < k then i else i + 1 }

  lemma TakenOut(f: seq<Flight>, k: nat, t: seq<Flight>, i: nat)
    requires k < |f| && t == f[..k] + f[k + 1..] && i < |t|
    ensures t[i] == f[Before(i, k)]
  {}

  lemma EndedIsDistinct(s: Sched, k: nat, i: nat, j: nat)
    requires Exclusive(s) && k < |s.inflight| && i < j < |Ended(s, k).inflight|
    ensures Ended(s, k).inflight[i].rule.id != Ended(s, k).inflight[j].rule.id
  {
    TakenOut(s.inflight, k, Ended(s, k).inflight, i);
    TakenOut(s.inflight, k, Ended(s, k).inflight, j);
  }

  lemma EndedIsRunning(s: Sched, k: nat, i: nat)
    requires Exclusive(s) && k < |s.inflight| && i < |Ended(s, k).inflight|
    ensures Ended(s, k).inflight[i].rule.id in Ended(s, k).running
  {
    TakenOut(s.inflight, k, Ended(s, k).inflight, i);
    assert Before(i, k) < k || k < Before(i, k);
  }

  lemma EndedStillFlies(s: Sched, k: nat, id: nat)
    requires k < |s.inflight| && InFlight(s, id) && id != s.inflight[k].rule.id
    ensures InFlight(Ended(s, k), id)
  {
    var i :| 0 <= i < |s.inflight| && s.inflight[i].rule.id == id;
    TakenOut(s.inflight, k, Ended(s, k).inflight, if i < k then i else i - 1);
  }

  lemma EndedIsExclusive(s: Sched, k: nat)
    requires Exclusive(s) && k < |s.inflight|
    ensures Exclusive(Ended(s, k))
  {
    var t := Ended(s, k);
    forall i, j | 0 <= i < j < |t.inflight|
      ensures t.inflight[i].rule.id != t.inflight[j].rule.id
    {
      EndedIsDistinct(s, k, i, j);
    }
    forall i | 0 <= i < |t.inflight|
      ensures t.inflight[i].rule.id in t.running
    {
      EndedIsRunning(s, k, i);
    }
    forall id | id in t.running
      ensures InFlight(t, id)
    {
      EndedStillFlies(s, k, id);
    }
  }

  lemma EndedIsSound(s: Sched, k: nat)
    requires Sound(s) && k < |s.inflight|
    ensures Sound(Ended(s, k))
  {
    EndedIsExclusive(s, k);
    assert Ended(s, k).trace[..|s.trace|] == s.trace;
  }

  /** Mutual exclusion in every run: ticks and wakes with any snapshot of the rules, evaluations ending in any
      order, repositories swapped or taken away in between. */
  lemma {:induction false} RunIsSound(actions: seq<Action>)
    ensures Sound(Run(actions).sched)
  {
    if actions != [] {
      var y, a := Run(actions[..|actions| - 1]), actions[|actions| - 1];
      RunIsSound(actions[..|actions| - 1]);
      match a {
        case Tick(_, _) =>
        case Next =>
          if y.pass.Looping? && y.pass.rest != [] { ClaimedIsSound(y.sched, y.pass.rest[0], y.pass.repo, y.pass.now); }
        case Finish(k) => if k < |y.sched.inflight| { EndedIsSound(y.sched, k); }
        case Configure(_, _) =>
        case Disable =>
      }
    }
  }

  lemma {:induction false} OpenUntilFinished(trace: seq<Mark>, i: nat, id: nat)
    requires i < |trace| && trace[i].Started? && trace[i].id == id
    requires forall k :: i < k < |trace| ==> trace[k] != Finished(id)
    ensures id in Open(trace)
  {
    if i < |trace| - 1 { OpenUntilFinished(trace[..|trace| - 1], i, id); }
  }

  lemma {:induction false} OrderlyPrefix(trace: seq<Mark>, n: nat)
    requires Orderly(trace) && n <= |trace|
    ensures Orderly(trace[..n])
  {
    if n == |trace| {
      assert trace[..n] == trace;
    } else {
      OrderlyPrefix(trace[..|trace| - 1], n);
      assert trace[..|trace| - 1][..n] == trace[..n];
    }
  }

  /** In every run an evaluation of a rule has ended before the next evaluation of that rule starts. */
  lemma OneAtATime(actions: seq<Action>, i: nat, j: nat)
    requires var trace := Run(actions).sched.trace;
      i < j < |trace| && trace[i].Started? && trace[j].Started? && trace[i].id == trace[j].id
    ensures var trace := Run(actions).sched.trace;
      exists k :: i < k < j && trace[k] == Finished(trace[i].id)
  {
    var trace := Run(actions).sched.trace;
    RunIsSound(actions);
    OrderlyPrefix(trace, j + 1);
    assert trace[..j + 1][..j] == trace[..j];
    if forall k :: i < k < j ==> trace[k] != Finished(trace[i].id) {
      OpenUntilFinished(trace[..j], i, trace[i].id);
    }
  }

  // ---------------------------------------------------------------- one undisturbed pass

  function PassOver(s: Sched, rules: seq<Rule>, repo: nat, now: int): Sched {
    if rules == [] then s
    else Claimed(PassOver(s, rules[..|rules| - 1], repo, now), rules[|rules| - 1], repo, now)
  }

  lemma {:induction false} PassIsSound(s: Sched, rules: seq<Rule>, repo: nat, now: int)
    requires Sound(s)
    ensures Sound(PassOver(s, rules, repo, now))
  {
    if rules != [] {
      PassIsSound(s, rules[..|rules| - 1], repo, now);
      ClaimedIsSound(PassOver(s, rules[..|rules| - 1], repo, now), rules[|rules| - 1], repo, now);
    }
  }

  /** A pass that nothing interrupts starts each due rule that was not running, exactly once, for the repository
      it was read from, and starts nothing else. */
  lemma {:induction false} PassStartsDueRules(s: Sched, rules: seq<Rule>, repo: nat, now: int)
    ensures var t := PassOver(s, rules, repo, now);
      && |s.inflight| <= |t.inflight| && t.inflight[..|s.inflight|] == s.inflight
      && (forall id :: id in t.running <==> id in s.running || exists r :: r in rules && IsDue(r, now) && r.id == id)
      && (forall i :: |s.inflight| <= i < |t.inflight| ==>
            t.inflight[i].repo == repo && t.inflight[i].rule in rules && IsDue(t.inflight[i].rule, now)
            && t.inflight[i].rule.id !in s.running)
    ensures Sound(s) ==> Sound(PassOver(s, rules, repo, now))
  {
    if rules != [] {
      var init, last := rules[..|rules| - 1], rules[|rules| - 1];
      PassStartsDueRules(s, init, repo, now);
      DueIsDue(last, now);
      assert forall r :: r in rules <==> r in init || r == last;
    }
    if Sound(s) { PassIsSound(s, rules, repo, now); }
  }

  // ---------------------------------------------------------------- the service

  class Service {
    var repo: Option<nat>
    var historyLimit: int
    var running: set<nat>
    // the goroutines that evaluate, and the trace of their starts and ends
    ghost var inflight: seq<Flight>
    ghost var trace: seq<Mark>

    ghost function View(): Sched
      reads this
    {
      Sched(repo, historyLimit, running, inflight, trace)
    }

    /** NewService */
    constructor ()
      ensures View() == STARTED && repo == None && historyLimit == 300 && running == {} && inflight == [] && trace == []
    {
      repo, historyLimit, running := None, DEFAULT_LIMIT, {};
      inflight, trace := [], [];
    }

    /** Configure; the result is the limit that the new repository is pruned with. */
    method Configure(newRepo: Option<nat>, limit: int) returns (pruneTo: int)
      modifies this
      ensures View() == Configured(old(View()), newRepo, limit) && pruneTo == historyLimit
      ensures repo == newRepo && historyLimit == if limit < 1 then 300 else limit
      ensures running == old(running) && inflight == old(inflight)
    {
      pruneTo := limit;
      if pruneTo < 1 { pruneTo := DEFAULT_LIMIT; }
      repo, historyLimit := newRepo, pruneTo;
    }

    method Disable()
      modifies this
      ensures View() == Disabled(old(View()))
      ensures repo == None && historyLimit == old(historyLimit) && running == old(running) && inflight == old(inflight)
    {
      repo := None;
    }

    /** schedule, when nothing else runs meanwhile; `rules` is what the repository answers. */
    method Schedule(rules: Option<seq<Rule>>, now: int)
      modifies this
      ensures View() ==
        if old(repo).None? || rules.None? then old(View()) else PassOver(old(View()), rules.value, old(repo).value, now)
    {
      if repo.None? || rules.None? { return; }
      var from, i := repo.value, 0;
      assert rules.value[..0] == [];
      while i < |rules.value|
        invariant i <= |rules.value|
        invariant View() == PassOver(old(View()), rules.value[..i], from, now)
      {
        var rule := rules.value[i];
        assert rules.value[..i + 1][..i] == rules.value[..i];
        i := i + 1;
        if !rule.enabled || rule.interval < 1 { continue; }
        if rule.lastEvaluated.Some? && now < Ns(rule.lastEvaluated.value) + rule.interval * SECOND { continue; }
        if rule.id in running { continue; }
        running := running + {rule.id};
        inflight, trace := inflight + [Flight(rule, from)], trace + [Started(rule.id, from)];
      }
      assert rules.value[..i] == rules.value;
    }

    /** The deferred part of the goroutine that runs the k-th evaluation in flight. */
    method GiveBack(ghost k: nat, id: nat)
      requires k < |inflight| && inflight[k].rule.id == id
      modifies this
      ensures View() == Ended(old(View()), k)
      ensures running == old(running) - {id} && inflight == old(inflight)[..k] + old(inflight)[k + 1..]
      ensures repo == old(repo) && historyLimit == old(historyLimit)
    {
      running := running - {id};
      inflight, trace := inflight[..k] + inflight[k + 1..], trace + [Finished(id)];
    }
  }
}
