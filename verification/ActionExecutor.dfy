/**
 * The concurrency limiter and the retry loop of the action executor.  The limiter is a step system: a
 * task arrives and either starts or queues; a task that ends wakes the head of the queue; a woken task
 * resumes later and only then counts as active again.
 */
module ActionExecutor {
  import opened Wrappers
  import opened Arithmetic

  type Group = string
  type Task = nat

  const MAX_CONCURRENCY: nat := 10

  /** One group. `enqueued` and `woke` record every task that ever queued and that was ever woken. */
  datatype Limiter = Limiter(
    active: int,
    queue: seq<Task>,
    woken: set<Task>,
    running: set<Task>,
    arrived: nat,
    enqueued: seq<Task>,
    woke: seq<Task>)

  const IDLE := Limiter(0, [], {}, {}, 0, [], [])

  /** A new task arrives (tasks are numbered upwards): it starts below the limit and queues otherwise. */
  function Arrive(s: Limiter, t: Task): Limiter {
    if t < s.arrived then s
    else if s.active >= MAX_CONCURRENCY then s.(queue := s.queue + [t], enqueued := s.enqueued + [t], arrived := t + 1)
    else s.(active := s.active + 1, running := s.running + {t}, arrived := t + 1)
  }

  /** A woken task continues after its `await`. */
  function Resume(s: Limiter, t: Task): Limiter {
    if t !in s.woken then s
    else s.(woken := s.woken - {t}, active := s.active + 1, running := s.running + {t})
  }

  /** The `finally` block of a running task. */
  function Finish(s: Limiter, t: Task): Limiter {
    if t !in s.running then s
    else
      var s' := s.(running := s.running - {t}, active := (if s.active == 0 then 1 else s.active) - 1);
      if s.queue == [] then s'
      else s'.(queue := s.queue[1..], woken := s.woken + {s.queue[0]}, woke := s.woke + [s.queue[0]])
  }

  datatype Action = DoArrive(t: Task) | DoResume(t: Task) | DoFinish(t: Task)

  function Next(s: Limiter, a: Action): Limiter {
    match a
    case DoArrive(t) => Arrive(s, t)
    case DoResume(t) => Resume(s, t)
    case DoFinish(t) => Finish(s, t)
  }

  function Run(s: Limiter, actions: seq<Action>): Limiter
    decreases |actions|
  {
    if actions == [] then s else Run(Next(s, actions[0]), actions[1..])
  }

  /**
   * No wake-up is lost: while anyone waits, the active tasks and those woken but not yet resumed fill
   * the limit.  Waiters are woken in the order in which they queued.
   */
  ghost predicate Good(s: Limiter) {
    && s.active == |s.running|
    && (s.queue != [] ==> s.active + |s.woken| >= MAX_CONCURRENCY)
    && s.woke + s.queue == s.enqueued
    && s.running !! s.woken
    && (forall t | t in s.queue :: t < s.arrived && t !in s.running && t !in s.woken)
    && (forall t | t in s.running || t in s.woken :: t < s.arrived)
    && Ascending(s.queue)
  }

  lemma ArriveGood(s: Limiter, t: Task)
    requires Good(s)
    ensures Good(Arrive(s, t))
  {
    assert s.woke + (s.queue + [t]) == (s.woke + s.queue) + [t];
    assert forall i | 0 <= i < |s.queue| :: s.queue[i] in s.queue;
  }

  lemma ResumeGood(s: Limiter, t: Task)
    requires Good(s)
    ensures Good(Resume(s, t))
  {
  }

  ghost predicate Ascending(queue: seq<Task>) {
    forall i, j | 0 <= i < j < |queue| :: queue[i] < queue[j]
  }

  lemma QueueTail(queue: seq<Task>)
    requires queue != [] && Ascending(queue)
    ensures Ascending(queue[1..]) && queue[0] in queue
    ensures forall u | u in queue[1..] :: u in queue && u != queue[0]
  {
    forall u | u in queue[1..] ensures u in queue && u != queue[0] {
      var i :| 0 <= i < |queue[1..]| && queue[1..][i] == u;
      assert queue[i + 1] == u;
    }
  }

  lemma FinishGood(s: Limiter, t: Task)
    requires Good(s)
    ensures Good(Finish(s, t))
  {
    if t in s.running && s.queue != [] {
      QueueTail(s.queue);
      assert s.woke + [s.queue[0]] + s.queue[1..] == s.woke + s.queue;
      assert |s.woken + {s.queue[0]}| == |s.woken| + 1;
    }
  }

  lemma NextGood(s: Limiter, a: Action)
    requires Good(s)
    ensures Good(Next(s, a))
  {
    match a
    case DoArrive(t) => ArriveGood(s, t);
    case DoResume(t) => ResumeGood(s, t);
    case DoFinish(t) => FinishGood(s, t);
  }

  lemma {:induction false} RunGood(s: Limiter, actions: seq<Action>)
    requires Good(s)
    ensures Good(Run(s, actions))
    decreases |actions|
  {
    if actions != [] {
      NextGood(s, actions[0]);
      RunGood(Next(s, actions[0]), actions[1..]);
    }
  }

  /** In every run: no lost wake-up, and the woken tasks are a prefix of the queued ones. */
  lemma NoLostWakeups(actions: seq<Action>)
    ensures var s := Run(IDLE, actions);
            && (s.queue != [] ==> s.active + |s.woken| >= 10)
            && s.woke <= s.enqueued && s.queue == s.enqueued[|s.woke|..]
  {
    RunGood(IDLE, actions);
    var s := Run(IDLE, actions);
    assert s.enqueued[|s.woke|..] == s.queue;
  }

  /**
   * The limit itself can be exceeded: a task that arrives between a wake-up and the resumption takes
   * the free slot, and the woken task resumes on top of it.
   */
  lemma LimitExceeded(s: Limiter, t: Task, late: Task)
    requires Good(s) && s.active == MAX_CONCURRENCY && s.queue != [] && t in s.running && late >= s.arrived
    ensures Resume(Arrive(Finish(s, t), late), s.queue[0]).active == MAX_CONCURRENCY + 1
  {
  }

  lemma {:induction false} RunAppend(s: Limiter, a: seq<Action>, b: seq<Action>)
    ensures Run(s, a + b) == Run(Run(s, a), b)
    decreases |a|
  {
    if a == [] {
      assert a + b == b;
    } else {
      assert (a + b)[1..] == a[1..] + b;
      RunAppend(Next(s, a[0]), a[1..], b);
    }
  }

  lemma {:induction false} FillUp(s: Limiter) returns (actions: seq<Action>)
    requires Good(s) && s.queue == [] && s.woken == {} && s.active <= MAX_CONCURRENCY
    ensures var s' := Run(s, actions); Good(s') && s'.queue == [] && s'.woken == {} && s'.active == MAX_CONCURRENCY
    decreases MAX_CONCURRENCY - s.active
  {
    actions := [];
    if s.active < MAX_CONCURRENCY {
      ArriveGood(s, s.arrived);
      var rest := FillUp(Arrive(s, s.arrived));
      actions := [DoArrive(s.arrived)] + rest;
      assert actions[1..] == rest;
    }
  }

  /** Four steps from a full limiter without waiters lead past the limit. */
  lemma PastTheLimit(full: Limiter) returns (end: seq<Action>)
    requires Good(full) && full.queue == [] && full.active == MAX_CONCURRENCY
    ensures Run(full, end).active == MAX_CONCURRENCY + 1
  {
    var first, waits := full.arrived, Arrive(full, full.arrived);
    ArriveGood(full, first);
    var t :| t in waits.running;
    LimitExceeded(waits, t, waits.arrived);
    var resume := [DoResume(first)];
    var arrive := [DoArrive(waits.arrived)] + resume;
    var finish := [DoFinish(t)] + arrive;
    end := [DoArrive(first)] + finish;
    RunCons(full, DoArrive(first), finish);
    RunCons(waits, DoFinish(t), arrive);
    RunCons(Finish(waits, t), DoArrive(waits.arrived), resume);
    RunCons(Arrive(Finish(waits, t), waits.arrived), DoResume(first), []);
    assert resume == [DoResume(first)] + [];
  }

  lemma RunCons(s: Limiter, a: Action, rest: seq<Action>)
    ensures Run(s, [a] + rest) == Run(Next(s, a), rest)
  {
    assert ([a] + rest)[1..] == rest;
  }

  /** From the idle limiter eleven active tasks can be reached. */
  lemma LimitExceededFromIdle()
    ensures exists actions :: Run(IDLE, actions).active == MAX_CONCURRENCY + 1
  {
    var fill := FillUp(IDLE);
    var end := PastTheLimit(Run(IDLE, fill));
    RunAppend(IDLE, fill, end);
  }

  /** The active tasks and the woken ones, whose slots are promised to them, fit the limit. */
  predicate WithinLimit(s: Limiter) {
    s.active + |s.woken| <= MAX_CONCURRENCY
  }

  /** A newcomer takes a slot that is promised to a woken task. */
  predicate Overtakes(s: Limiter, a: Action) {
    a.DoArrive? && a.t >= s.arrived && s.active < MAX_CONCURRENCY <= s.active + |s.woken|
  }

  predicate OnlyResumes(actions: seq<Action>) {
    forall i | 0 <= i < |actions| :: actions[i].DoResume?
  }

  /** No step but such an arrival breaks the promises. */
  lemma WithinLimitStep(s: Limiter, a: Action)
    requires Good(s) && WithinLimit(s)
    ensures WithinLimit(Next(s, a)) <==> !Overtakes(s, a)
  {
    if a.DoFinish? && a.t in s.running && s.queue != [] {
      assert s.queue[0] in s.queue;
      assert |s.woken + {s.queue[0]}| == |s.woken| + 1;
    }
  }

  lemma {:induction false} ResumesKeepTotal(s: Limiter, more: seq<Action>)
    requires Good(s) && OnlyResumes(more)
    ensures var s' := Run(s, more); Good(s') && s'.active + |s'.woken| == s.active + |s.woken|
    decreases |more|
  {
    if more != [] {
      NextGood(s, more[0]);
      ResumesKeepTotal(Next(s, more[0]), more[1..]);
    }
  }

  lemma {:induction false} ResumeAll(s: Limiter) returns (more: seq<Action>)
    requires Good(s)
    ensures OnlyResumes(more) && Run(s, more).active == s.active + |s.woken|
    decreases |s.woken|
  {
    more := [];
    if s.woken != {} {
      var t :| t in s.woken;
      ResumeGood(s, t);
      var rest := ResumeAll(Resume(s, t));
      more := [DoResume(t)] + rest;
      assert more[1..] == rest;
    }
  }

  /**
   * Exactly these arrivals break the limit: after a step from a state within the limit, the woken tasks
   * can push the active count past it by resuming if and only if the step was such an arrival.
   */
  lemma LimitBrokenExactlyWhen(s: Limiter, a: Action)
    requires Good(s) && WithinLimit(s)
    ensures Overtakes(s, a) <==> exists more :: OnlyResumes(more) && Run(Next(s, a), more).active > MAX_CONCURRENCY
  {
    var s' := Next(s, a);
    NextGood(s, a);
    WithinLimitStep(s, a);
    var all := ResumeAll(s');
    forall more | OnlyResumes(more) && Run(s', more).active > MAX_CONCURRENCY
      ensures !WithinLimit(s')
    {
      ResumesKeepTotal(s', more);
    }
  }

  predicate SomeOvertakes(s: Limiter, actions: seq<Action>)
    decreases |actions|
  {
    actions != [] && (Overtakes(s, actions[0]) || SomeOvertakes(Next(s, actions[0]), actions[1..]))
  }

  /** A run without such an arrival never exceeds the limit. */
  lemma {:induction false} LimitKept(s: Limiter, actions: seq<Action>)
    requires Good(s) && WithinLimit(s) && !SomeOvertakes(s, actions)
    ensures WithinLimit(Run(s, actions)) && Run(s, actions).active <= MAX_CONCURRENCY
    decreases |actions|
  {
    if actions != [] {
      NextGood(s, actions[0]);
      WithinLimitStep(s, actions[0]);
      LimitKept(Next(s, actions[0]), actions[1..]);
    }
  }

  // ---------------------------------------------------------------- the retry loop

  /** How one call of the operation ends. */
  datatype Outcome = Ok(value: int) | Retryable | Fatal

  datatype Verdict = Returned(value: int) | Threw(attempt: nat) | Exhausted

  /**
   * Calls the operation until it succeeds, fails for good, or has been tried `maxRetries` times, and
   * waits twice as long before each further attempt.
   */
  method Execute(operation: nat -> Outcome, maxRetries: nat, backoffMs: nat)
    returns (verdict: Verdict, calls: nat, waited: nat)
    ensures calls <= maxRetries
    ensures forall k | 0 <= k < calls - 1 :: operation(k) == Retryable
    ensures waited == if calls == 0 then 0 else backoffMs * (Pow2(calls - 1) - 1)
    ensures if maxRetries == 0 then verdict == Exhausted && calls == 0
            else calls > 0 && match operation(calls - 1)
                              case Ok(v) => verdict == Returned(v)
                              case Fatal => verdict == Threw(calls)
                              case Retryable => verdict == Threw(calls) && calls == maxRetries
  {
    var attempts := 0;
    calls, waited := 0, 0;
    while attempts < maxRetries
      invariant attempts == calls <= maxRetries
      invariant maxRetries > 0 ==> attempts < maxRetries
      invariant forall k | 0 <= k < calls :: operation(k) == Retryable
      invariant waited == backoffMs * (Pow2(calls) - 1)
    {
      var outcome := operation(calls);
      calls := calls + 1;
      if outcome.Ok? {
        return Returned(outcome.value), calls, waited;
      }
      attempts := attempts + 1;
      if attempts >= maxRetries || outcome == Fatal {
        return Threw(attempts), calls, waited;
      }
      var delay := backoffMs * Pow2(attempts - 1);
      assert waited + delay == backoffMs * (Pow2(attempts) - 1) by {
        assert Pow2(attempts) == 2 * Pow2(attempts - 1);
      }
      waited := waited + delay;
    }
    verdict := Exhausted;
  }

  lemma {:induction false} Pow2Monotone(m: nat, n: nat)
    requires m <= n
    ensures 0 < Pow2(m) <= Pow2(n)
    decreases n
  {
    if n > 0 {
      Pow2Monotone(if m < n then m else n - 1, n - 1);
    }
  }

  /** The waiting of a whole `execute` is bounded by its options. */
  lemma BackoffBound(calls: nat, maxRetries: nat, backoffMs: nat)
    requires 0 < calls <= maxRetries
    ensures backoffMs * (Pow2(calls - 1) - 1) <= backoffMs * (Pow2(maxRetries - 1) - 1)
  {
    Pow2Monotone(calls - 1, maxRetries - 1);
  }

  // ---------------------------------------------------------------- the class

  class ActionExecutor {
    var activeOperations: map<Group, int>
    var queues: map<Group, seq<Task>>
    /** The full step state of each group that was ever used. */
    ghost var groups: map<Group, Limiter>

    ghost function Of(group: Group): Limiter
      reads this
    {
      if group in groups then groups[group] else IDLE
    }

    ghost predicate Valid()
      reads this
    {
      forall g :: GroupOk(g)
    }

    /** The two maps hold the count and the queue of a group; an empty queue has no entry. */
    ghost predicate GroupOk(g: Group)
      reads this
    {
      && Good(Of(g))
      && Of(g).active == (if g in activeOperations then activeOperations[g] else 0)
      && (if g in queues then queues[g] != [] && Of(g).queue == queues[g] else Of(g).queue == [])
    }

    constructor ()
      ensures Valid() && groups == map[]
    {
      activeOperations, queues, groups := map[], map[], map[];
    }

    /** The part of `withConcurrency` before the operation; `waits` tells whether it queued. */
    method Begin(group: Group, task: Task) returns (waits: bool)
      requires Valid() && task >= Of(group).arrived
      modifies this
      ensures Valid() && groups == old(groups)[group := Arrive(old(Of(group)), task)]
      ensures waits <==> old(Of(group)).active >= MAX_CONCURRENCY
    {
      assert GroupOk(group);
      ArriveGood(Of(group), task);
      var active := if group in activeOperations then activeOperations[group] else 0;
      waits := active >= MAX_CONCURRENCY;
      if waits {
        var queue := if group in queues then queues[group] else [];
        queues := queues[group := queue + [task]];
      } else {
        activeOperations := activeOperations[group := active + 1];
      }
      groups := groups[group := Arrive(Of(group), task)];
      assert forall g | g != group :: old(GroupOk(g)) ==> GroupOk(g);
    }

    /** What a woken task does first. */
    method Continue(group: Group, task: Task)
      requires Valid() && task in Of(group).woken
      modifies this
      ensures Valid() && groups == old(groups)[group := Resume(old(Of(group)), task)]
    {
      assert GroupOk(group);
      ResumeGood(Of(group), task);
      var active := if group in activeOperations then activeOperations[group] else 0;
      activeOperations := activeOperations[group := active + 1];
      groups := groups[group := Resume(Of(group), task)];
      assert forall g | g != group :: old(GroupOk(g)) ==> GroupOk(g);
    }

    /** The `finally` block; `next` is the waiter it wakes. */
    method End(group: Group, task: Task) returns (next: Option<Task>)
      requires Valid() && task in Of(group).running
      modifies this
      ensures Valid() && groups == old(groups)[group := Finish(old(Of(group)), task)]
      ensures next == var queue := old(Of(group)).queue; if queue == [] then None else Some(queue[0])
    {
      assert GroupOk(group);
      FinishGood(Of(group), task);
      var count := if group in activeOperations then activeOperations[group] else 0;
      var remaining := (if count == 0 then 1 else count) - 1;
      activeOperations := activeOperations[group := remaining];
      next := None;
      if group in queues && |queues[group]| > 0 {
        var queue := queues[group];
        next := Some(queue[0]);
        queue := queue[1..];
        queues := if queue == [] then queues - {group} else queues[group := queue];
      }
      groups := groups[group := Finish(Of(group), task)];
      assert forall g | g != group :: old(GroupOk(g)) ==> GroupOk(g);
    }
  }
}
