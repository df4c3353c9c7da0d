/**
 * `TaskMutex.runExclusive` as a step system.  The lock of a key is a chain of promises: the map holds
 * the tail, and each request waits for the tail it found and appends a promise of its own.  A request
 * may time out while it waits; its `finally` block then settles its promise like any other.
 */
module TaskMutex {
  import opened Wrappers

  type Key = string

  /** `Then(a, b)` is `a.then(() => b)`; the numbers are positions in the list of all promises. */
  datatype Promise = Settled | Deferred(done: bool) | Then(first: nat, second: nat)

  datatype Phase = Waiting | Running | Expired | Finished {
    predicate Released() {
      Expired? || Finished?
    }
  }

  datatype Request = Request(key: Key, previous: nat, current: nat, phase: Phase)

  /** `started` lists the requests whose bodies have begun, in order. */
  datatype State = State(promises: seq<Promise>, locks: map<Key, nat>, requests: seq<Request>, started: seq<nat>)

  const INITIAL := State([], map[], [], [])

  predicate Resolved(ps: seq<Promise>, p: nat)
    decreases p
  {
    p < |ps| &&
    match ps[p]
    case Settled => true
    case Deferred(done) => done
    case Then(a, b) => a < p && b < p && Resolved(ps, a) && Resolved(ps, b)
  }

  // ---------------------------------------------------------------- the steps

  /** The part of `runExclusive` before the first `await`. */
  function Enter(s: State, key: Key): State {
    var ps := if key in s.locks then s.promises else s.promises + [Settled];
    var previous := if key in s.locks then s.locks[key] else |s.promises|;
    var current := |ps|;
    s.(promises := ps + [Deferred(false), Then(previous, current)],
       locks := s.locks[key := current + 1],
       requests := s.requests + [Request(key, previous, current, Waiting)])
  }

  predicate CanStart(s: State, i: nat) {
    i < |s.requests| && s.requests[i].phase == Waiting && Resolved(s.promises, s.requests[i].previous)
  }

  /** The awaited tail has settled first: the body begins. */
  function Start(s: State, i: nat): State
    requires CanStart(s, i)
  {
    s.(requests := s.requests[i := s.requests[i].(phase := Running)], started := s.started + [i])
  }

  predicate CanLeave(s: State, i: nat) {
    i < |s.requests| && (s.requests[i].phase == Waiting || s.requests[i].phase == Running)
  }

  /** The `finally` block, after a timeout or after the body. */
  function Leave(s: State, i: nat): State
    requires CanLeave(s, i)
  {
    var q := s.requests[i];
    s.(promises := if q.current < |s.promises| then s.promises[q.current := Deferred(true)] else s.promises,
       locks := if q.key in s.locks && s.locks[q.key] == q.current then s.locks - {q.key} else s.locks,
       requests := s.requests[i := q.(phase := if q.phase == Waiting then Expired else Finished)])
  }

  datatype Action = DoEnter(key: Key) | DoStart(i: nat) | DoLeave(i: nat)

  function Next(s: State, a: Action): State {
    match a
    case DoEnter(key) => Enter(s, key)
    case DoStart(i) => if CanStart(s, i) then Start(s, i) else s
    case DoLeave(i) => if CanLeave(s, i) then Leave(s, i) else s
  }

  function Run(s: State, actions: seq<Action>): State
    decreases |actions|
  {
    if actions == [] then s else Run(Next(s, actions[0]), actions[1..])
  }

  // ---------------------------------------------------------------- the chain invariant

  /** The last of the first `n` requests that asked for `key`. */
  function Last(requests: seq<Request>, key: Key, n: nat): (r: Option<nat>)
    requires n <= |requests|
    ensures r.Some? ==> r.value < n && requests[r.value].key == key
    ensures forall j | (if r.Some? then r.value + 1 else 0) <= j < n :: requests[j].key != key
  {
    if n == 0 then None
    else if requests[n - 1].key == key then Some(n - 1)
    else Last(requests, key, n - 1)
  }

  /** The promise `p` is the tail that the first `n` requests for `key` have left. */
  ghost predicate IsTail(s: State, p: nat, key: Key, n: nat)
    requires n <= |s.requests|
  {
    p < |s.promises| &&
    match Last(s.requests, key, n)
    case None => s.promises[p] == Settled
    case Some(j) =>
      s.promises[p] == Then(s.requests[j].previous, s.requests[j].current)
      && s.requests[j].previous < p && s.requests[j].current < p
  }

  ghost predicate AllReleased(s: State, key: Key, n: nat)
    requires n <= |s.requests|
  {
    forall j | 0 <= j < n && s.requests[j].key == key :: s.requests[j].phase.Released()
  }

  /** The request waits for the tail it found; its own promise is settled when it is released. */
  ghost predicate Link(s: State, i: nat)
    requires i < |s.requests|
  {
    var q := s.requests[i];
    && q.current < |s.promises|
    && s.promises[q.current] == Deferred(q.phase.Released())
    && IsTail(s, q.previous, q.key, i)
  }

  ghost predicate OwnDistinct(s: State) {
    forall i, j | 0 <= i < j < |s.requests| :: s.requests[i].current != s.requests[j].current
  }

  ghost predicate Linked(s: State) {
    OwnDistinct(s) && forall i | 0 <= i < |s.requests| :: Link(s, i)
  }

  /** The map holds the present tail of every key that was ever asked for. */
  ghost predicate LocksHoldTails(s: State) {
    && (forall key | key in s.locks ::
          IsTail(s, s.locks[key], key, |s.requests|) && Last(s.requests, key, |s.requests|).Some?)
    && (forall key | key !in s.locks :: Last(s.requests, key, |s.requests|).None?)
  }

  ghost predicate Chained(s: State) {
    Linked(s) && LocksHoldTails(s)
  }

  /** A request that has begun found everything before it on its key released. */
  ghost predicate Exclusive(s: State) {
    && (forall i | 0 <= i < |s.requests| && (s.requests[i].phase == Running || s.requests[i].phase == Finished) ::
          AllReleased(s, s.requests[i].key, i) && i in s.started)
    && (forall a | 0 <= a < |s.started| ::
          s.started[a] < |s.requests|
          && (s.requests[s.started[a]].phase == Running || s.requests[s.started[a]].phase == Finished))
    && (forall a, b | 0 <= a < b < |s.started| && s.requests[s.started[a]].key == s.requests[s.started[b]].key ::
          s.started[a] < s.started[b])
  }

  ghost predicate Good(s: State) {
    Chained(s) && Exclusive(s)
  }

  /** A tail has settled exactly when every request before it on its key has been released. */
  lemma {:induction false} TailResolved(s: State, p: nat, key: Key, n: nat)
    requires Linked(s) && n <= |s.requests| && IsTail(s, p, key, n)
    ensures Resolved(s.promises, p) <==> AllReleased(s, key, n)
    decreases n
  {
    var last := Last(s.requests, key, n);
    if last.Some? {
      var j := last.value;
      assert Link(s, j);
      TailResolved(s, s.requests[j].previous, key, j);
    }
  }

  lemma OwnPromises(s: State)
    requires Linked(s)
    ensures forall i | 0 <= i < |s.requests| ::
              s.requests[i].current < |s.promises|
              && s.promises[s.requests[i].current] == Deferred(s.requests[i].phase.Released())
  {
    forall i | 0 <= i < |s.requests|
      ensures s.requests[i].current < |s.promises|
              && s.promises[s.requests[i].current] == Deferred(s.requests[i].phase.Released())
    {
      assert Link(s, i);
    }
  }

  lemma {:induction false} LastSame(requests: seq<Request>, more: seq<Request>, key: Key, n: nat)
    requires n <= |requests| && n <= |more| && forall j | 0 <= j < n :: requests[j].key == more[j].key
    ensures Last(requests, key, n) == Last(more, key, n)
  {
    if n > 0 && requests[n - 1].key != key {
      LastSame(requests, more, key, n - 1);
    }
  }

  // ---------------------------------------------------------------- every step keeps the invariant

  /** The same requests up to their phases, and no promise of a tail has changed. */
  ghost predicate Extends(s: State, s': State) {
    && |s.requests| <= |s'.requests| && |s.promises| <= |s'.promises|
    && (forall j | 0 <= j < |s.requests| ::
          && s'.requests[j].key == s.requests[j].key
          && s'.requests[j].previous == s.requests[j].previous
          && s'.requests[j].current == s.requests[j].current)
    && (forall p | 0 <= p < |s.promises| && !s.promises[p].Deferred? :: s'.promises[p] == s.promises[p])
  }

  lemma TailStays(s: State, s': State, p: nat, key: Key, n: nat)
    requires Extends(s, s') && n <= |s.requests| && IsTail(s, p, key, n)
    ensures IsTail(s', p, key, n)
  {
    LastSame(s.requests, s'.requests, key, n);
  }

  lemma NewLink(s: State, key: Key)
    requires LocksHoldTails(s)
    ensures Link(Enter(s, key), |s.requests|)
  {
    var s' := Enter(s, key);
    var n := |s.requests|;
    LastSame(s.requests, s'.requests, key, n);
    if key in s.locks {
      TailStays(s, s', s.locks[key], key, n);
    }
  }

  lemma OldLink(s: State, s': State, i: nat)
    requires Extends(s, s') && i < |s.requests| && Link(s, i)
    requires s.requests[i].current < |s'.promises|
    requires s'.promises[s.requests[i].current] == Deferred(s'.requests[i].phase.Released())
    ensures Link(s', i)
  {
    TailStays(s, s', s.requests[i].previous, s.requests[i].key, i);
  }

  lemma EnterLinked(s: State, key: Key)
    requires Good(s)
    ensures Linked(Enter(s, key))
  {
    var s' := Enter(s, key);
    OwnPromises(s);
    NewLink(s, key);
    assert OwnDistinct(s') by {
      assert s'.requests[|s.requests|].current >= |s.promises|;
    }
    forall i | 0 <= i < |s.requests| ensures Link(s', i) {
      OldLink(s, s', i);
    }
  }

  lemma OtherLock(s: State, key: Key, k: Key)
    requires LocksHoldTails(s) && k != key
    ensures var s' := Enter(s, key);
            && (k in s'.locks ==> IsTail(s', s'.locks[k], k, |s'.requests|))
            && (k in s'.locks <==> Last(s'.requests, k, |s'.requests|).Some?)
  {
    var s' := Enter(s, key);
    LastSame(s.requests, s'.requests, k, |s.requests|);
    if k in s.locks {
      TailStays(s, s', s.locks[k], k, |s.requests|);
    }
  }

  lemma EnterLocks(s: State, key: Key)
    requires Good(s)
    ensures LocksHoldTails(Enter(s, key))
  {
    var s' := Enter(s, key);
    NewLink(s, key);
    forall k | k != key
      ensures k in s'.locks ==> IsTail(s', s'.locks[k], k, |s'.requests|)
      ensures k in s'.locks <==> Last(s'.requests, k, |s'.requests|).Some?
    {
      OtherLock(s, key, k);
    }
  }

  lemma EnterGood(s: State, key: Key)
    requires Good(s)
    ensures Good(Enter(s, key))
  {
    EnterLinked(s, key);
    EnterLocks(s, key);
    var s' := Enter(s, key);
    forall i | 0 <= i < |s'.requests| && (s'.requests[i].phase == Running || s'.requests[i].phase == Finished)
      ensures AllReleased(s', s'.requests[i].key, i) && i in s'.started
    {
      assert AllReleased(s, s.requests[i].key, i);
    }
  }

  /** Changing phases and settling promises leaves every tail where it is. */
  lemma TailsStay(s: State, s': State)
    requires Chained(s) && Extends(s, s') && |s'.requests| == |s.requests| && s'.locks == s.locks
    requires forall i | 0 <= i < |s.requests| ::
               s.requests[i].current < |s'.promises|
               && s'.promises[s.requests[i].current] == Deferred(s'.requests[i].phase.Released())
    ensures Chained(s')
  {
    var n := |s.requests|;
    forall j | 0 <= j < n ensures Link(s', j) {
      OldLink(s, s', j);
    }
    forall k ensures Last(s'.requests, k, n) == Last(s.requests, k, n) {
      LastSame(s.requests, s'.requests, k, n);
    }
    forall k | k in s'.locks ensures IsTail(s', s'.locks[k], k, n) {
      TailStays(s, s', s.locks[k], k, n);
    }
  }

  lemma StartGood(s: State, i: nat)
    requires Good(s) && CanStart(s, i)
    ensures Good(Start(s, i))
  {
    OwnPromises(s);
    TailsStay(s, Start(s, i));
    assert Link(s, i);
    TailResolved(s, s.requests[i].previous, s.requests[i].key, i);
    StartExclusive(s, i);
  }

  lemma StartExclusive(s: State, i: nat)
    requires Exclusive(s) && CanStart(s, i) && AllReleased(s, s.requests[i].key, i)
    ensures Exclusive(Start(s, i))
  {
    var s' := Start(s, i);
    forall j | 0 <= j < |s'.requests| && (s'.requests[j].phase == Running || s'.requests[j].phase == Finished)
      ensures AllReleased(s', s'.requests[j].key, j) && j in s'.started
    {
      if j != i {
        assert AllReleased(s, s.requests[j].key, j) && j in s.started;
      }
    }
    forall a | 0 <= a < |s.started| && s.requests[s.started[a]].key == s.requests[i].key
      ensures s.started[a] < i
    {
      assert AllReleased(s, s.requests[s.started[a]].key, s.started[a]);
    }
  }

  lemma LeaveGood(s: State, i: nat)
    requires Good(s) && CanLeave(s, i)
    ensures Good(Leave(s, i))
  {
    CleanupNeverFires(s, i);
    OwnPromises(s);
    TailsStay(s, Leave(s, i));
    LeaveExclusive(s, i);
  }

  lemma LeaveExclusive(s: State, i: nat)
    requires Exclusive(s) && CanLeave(s, i)
    ensures Exclusive(Leave(s, i))
  {
    var s' := Leave(s, i);
    forall j | 0 <= j < |s'.requests| && (s'.requests[j].phase == Running || s'.requests[j].phase == Finished)
      ensures AllReleased(s', s'.requests[j].key, j) && j in s'.started
    {
      assert AllReleased(s, s.requests[j].key, j) && j in s.started;
    }
    forall a | 0 <= a < |s'.started|
      ensures s'.requests[s'.started[a]].phase == Running || s'.requests[s'.started[a]].phase == Finished
    {
      assert s.requests[s.started[a]].phase == Running || s.requests[s.started[a]].phase == Finished;
    }
  }

  /** In every run the invariant holds. */
  lemma {:induction false} RunGood(s: State, actions: seq<Action>)
    requires Good(s)
    ensures Good(Run(s, actions))
    decreases |actions|
  {
    if actions != [] {
      NextGood(s, actions[0]);
      RunGood(Next(s, actions[0]), actions[1..]);
    }
  }

  lemma NextGood(s: State, a: Action)
    requires Good(s)
    ensures Good(Next(s, a))
  {
    match a
    case DoEnter(key) => EnterGood(s, key);
    case DoStart(i) => if CanStart(s, i) { StartGood(s, i); }
    case DoLeave(i) => if CanLeave(s, i) { LeaveGood(s, i); }
  }

  // ---------------------------------------------------------------- what the mutex promises

  /** At most one body runs on a key. */
  lemma MutualExclusion(actions: seq<Action>, i: nat, j: nat)
    requires var s := Run(INITIAL, actions);
             i < |s.requests| && j < |s.requests| && s.requests[i].key == s.requests[j].key
             && s.requests[i].phase == Running && s.requests[j].phase == Running
    ensures i == j
  {
    RunGood(INITIAL, actions);
    var s := Run(INITIAL, actions);
    assert AllReleased(s, s.requests[i].key, i) && AllReleased(s, s.requests[j].key, j);
  }

  /** Bodies on one key begin in the order in which the requests arrived. */
  lemma ArrivalOrder(actions: seq<Action>, a: nat, b: nat)
    requires var s := Run(INITIAL, actions);
             a < b < |s.started| && s.started[a] < |s.requests| && s.started[b] < |s.requests|
             && s.requests[s.started[a]].key == s.requests[s.started[b]].key
    ensures Run(INITIAL, actions).started[a] < Run(INITIAL, actions).started[b]
  {
    RunGood(INITIAL, actions);
  }

  /** A waiter can start exactly when all requests before it on its key are released. */
  lemma CanStartExactlyWhen(s: State, i: nat)
    requires Good(s) && i < |s.requests| && s.requests[i].phase == Waiting
    ensures CanStart(s, i) <==> AllReleased(s, s.requests[i].key, i)
  {
    assert Link(s, i);
    TailResolved(s, s.requests[i].previous, s.requests[i].key, i);
  }

  /** A run ends with its last step. */
  lemma {:induction false} RunSnoc(s: State, actions: seq<Action>, a: Action)
    ensures Run(s, actions + [a]) == Next(Run(s, actions), a)
    decreases |actions|
  {
    if actions == [] {
      assert [a][1..] == [];
    } else {
      assert (actions + [a])[1..] == actions[1..] + [a];
      RunSnoc(Next(s, actions[0]), actions[1..], a);
    }
  }

  /**
   * What the steps do to the requests: a new one waits at the end, a started one runs and is listed last,
   * and a leaving one is released, as expired if it was still waiting.  No other request changes, and a step
   * that is not possible changes nothing.
   */
  lemma StepsMean(s: State, key: Key, i: nat)
    ensures var s' := Next(s, DoEnter(key));
            && |s'.requests| == |s.requests| + 1 && s'.requests[..|s.requests|] == s.requests && s'.started == s.started
            && s'.requests[|s.requests|].key == key && s'.requests[|s.requests|].phase == Waiting
    ensures var s' := Next(s, DoStart(i));
            if CanStart(s, i)
            then s'.requests == s.requests[i := s.requests[i].(phase := Running)] && s'.started == s.started + [i]
            else s' == s
    ensures var s' := Next(s, DoLeave(i));
            if CanLeave(s, i)
            then s'.started == s.started
                 && s'.requests == s.requests[i := s.requests[i].(phase := if s.requests[i].phase == Waiting then Expired else Finished)]
            else s' == s
  {
  }

  /** When the oldest unreleased request leaves, the next one that waits on its key can start. */
  lemma NextCanStart(s: State, i: nat, j: nat)
    requires Good(s) && CanLeave(s, i) && i < j < |s.requests| && s.requests[j].key == s.requests[i].key
    requires AllReleased(s, s.requests[i].key, i) && s.requests[j].phase == Waiting
    requires forall k | i < k < j && s.requests[k].key == s.requests[i].key :: s.requests[k].phase.Released()
    ensures CanStart(Leave(s, i), j)
  {
    LeaveGood(s, i);
    CanStartExactlyWhen(Leave(s, i), j);
  }

  /** The oldest request of a key that is not released runs already or is able to start. */
  lemma OldestCanStart(actions: seq<Action>, i: nat)
    requires var s := Run(INITIAL, actions);
             i < |s.requests| && !s.requests[i].phase.Released() && AllReleased(s, s.requests[i].key, i)
    ensures var s := Run(INITIAL, actions); s.requests[i].phase == Running || CanStart(s, i)
  {
    RunGood(INITIAL, actions);
    var s := Run(INITIAL, actions);
    assert Link(s, i);
    TailResolved(s, s.requests[i].previous, s.requests[i].key, i);
  }

  /** A waiter can start only when all requests before it on its key are released, timed out or not. */
  lemma StartsOnlyInTurn(actions: seq<Action>, i: nat)
    requires CanStart(Run(INITIAL, actions), i)
    ensures var s := Run(INITIAL, actions); AllReleased(s, s.requests[i].key, i)
  {
    RunGood(INITIAL, actions);
    var s := Run(INITIAL, actions);
    assert Link(s, i);
    TailResolved(s, s.requests[i].previous, s.requests[i].key, i);
  }

  /** The map holds tails, never a request's own promise, so the clean-up in `finally` never fires. */
  lemma CleanupNeverFires(s: State, i: nat)
    requires Chained(s) && i < |s.requests|
    ensures s.requests[i].key in s.locks && s.locks[s.requests[i].key] != s.requests[i].current
  {
    var key := s.requests[i].key;
    assert Link(s, i);
    assert Last(s.requests, key, |s.requests|).Some?;
    assert s.promises[s.locks[key]].Then? && s.promises[s.requests[i].current].Deferred?;
  }

  lemma LeavingKeepsLocks(s: State, i: nat)
    requires Good(s) && CanLeave(s, i)
    ensures var q := s.requests[i];
            && q.current < |s.promises| && !(q.key in s.locks && s.locks[q.key] == q.current)
            && Leave(s, i) == State(s.promises[q.current := Deferred(true)], s.locks,
                                    s.requests[i := q.(phase := if q.phase == Waiting then Expired else Finished)], s.started)
  {
    CleanupNeverFires(s, i);
    assert Link(s, i);
  }

  // ---------------------------------------------------------------- the class

  class TaskMutex {
    var promises: seq<Promise>
    var locks: map<Key, nat>
    var requests: seq<Request>
    ghost var started: seq<nat>

    ghost function Now(): State
      reads this
    {
      State(promises, locks, requests, started)
    }

    ghost predicate Valid()
      reads this
    {
      Good(Now())
    }

    constructor ()
      ensures Valid() && Now() == INITIAL
    {
      promises, locks, requests, started := [], map[], [], [];
    }

    method Acquire(key: Key) returns (request: nat)
      requires Valid()
      modifies this
      ensures Now() == Enter(old(Now()), key)
      ensures Valid()
      ensures request == |old(requests)|
    {
      EnterGood(Now(), key);
      request := |requests|;
      var previous := |promises|;
      if key in locks {
        previous := locks[key];
      } else {
        promises := promises + [Settled];
      }
      var current := |promises|;
      promises := promises + [Deferred(false), Then(previous, current)];
      locks := locks[key := current + 1];
      requests := requests + [Request(key, previous, current, Waiting)];
    }

    method Begin(request: nat)
      requires Valid() && CanStart(Now(), request)
      modifies this
      ensures Now() == Start(old(Now()), request)
      ensures Valid()
    {
      StartGood(Now(), request);
      requests := requests[request := requests[request].(phase := Running)];
      started := started + [request];
    }

    /** Runs the `finally` block of a request that timed out or whose body ended. */
    method Release(request: nat)
      requires Valid() && CanLeave(Now(), request)
      modifies this
      ensures Now() == Leave(old(Now()), request)
      ensures Valid()
      ensures locks == old(locks)
    {
      ghost var s := Now();
      LeaveGood(s, request);
      LeavingKeepsLocks(s, request);
      var q := requests[request];
      if q.key in locks && locks[q.key] == q.current {
        // The source deletes the entry here, but the map never holds a request's own promise.
        assert false;
      }
      promises := promises[q.current := Deferred(true)];
      requests := requests[request := q.(phase := if q.phase == Waiting then Expired else Finished)];
    }
  }
}
