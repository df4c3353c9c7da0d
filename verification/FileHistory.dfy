/**
 * Concurrent file operations on one branch of one repository.  Each call takes the branch lock, reads
 * the root of the current head, builds a new tree, and commits on the head it then finds.  The steps of
 * different calls interleave freely, and a call may time out while it waits for the lock.
 */
module FileHistory {
  import opened Wrappers
  import opened Paths
  import opened MerkleTrees
  import opened TreeMerge
  import Commits = CommitGraph
  import opened FileTree
  import Mutex = TaskMutex

  datatype CallPhase =
    | Pending
    | InBody
    | HasRoot(root: Option<TreeHash>)
    | Built(newRoot: TreeHash)
    | Committed
    | Failed

  datatype Call = Call(op: FileOp, nodeId: Commits.Id, phase: CallPhase)

  /** A committed operation and its node. */
  datatype Done = Done(op: FileOp, nodeId: Commits.Id)

  /** Call `i` is request `i` of the mutex; `log` and `order` record the commits and who made them. */
  datatype System = System(
    mutex: Mutex.State,
    calls: seq<Call>,
    nodes: Commits.NodeTable,
    head: Option<Commits.Id>,
    log: seq<Done>,
    order: seq<nat>)

  const BRANCH_LOCK: Mutex.Key := "repo:branch"

  function Initial(nodes: Commits.NodeTable, head: Option<Commits.Id>): System {
    System(Mutex.INITIAL, [], nodes, head, [], [])
  }

  // ---------------------------------------------------------------- the steps

  datatype Step =
    | Asks(op: FileOp, nodeId: Commits.Id)
    | Enters(i: nat)
    | TimesOut(i: nat)
    | Checkout(i: nat)
    | Build(i: nat)
    | CommitNode(i: nat)
    | Ends(i: nat)

  function SetPhase(s: System, i: nat, phase: CallPhase): System
    requires i < |s.calls|
  {
    s.(calls := s.calls[i := s.calls[i].(phase := phase)])
  }

  predicate Waits(s: System, i: nat) {
    i < |s.calls| && i < |s.mutex.requests| && s.mutex.requests[i].phase.Waiting?
  }

  /** One step; a step that is not possible in the state changes nothing. */
  function Next(s: System, a: Step): System {
    match a
    case Asks(op, nodeId) =>
      if !WellFormed(op) then s
      else s.(mutex := Mutex.Enter(s.mutex, BRANCH_LOCK), calls := s.calls + [Call(op, nodeId, Pending)])
    case Enters(i) =>
      if i < |s.calls| && Mutex.CanStart(s.mutex, i) then SetPhase(s, i, InBody).(mutex := Mutex.Start(s.mutex, i)) else s
    case TimesOut(i) =>
      if Waits(s, i) then s.(mutex := Mutex.Leave(s.mutex, i)) else s
    case Checkout(i) =>
      if i < |s.calls| && s.calls[i].phase == InBody then SetPhase(s, i, HasRoot(RootOf(s.nodes, s.head))) else s
    case Build(i) =>
      if i < |s.calls| && s.calls[i].phase.HasRoot? && WellFormed(s.calls[i].op) then
        var newRoot := Apply(s.calls[i].op, s.calls[i].phase.root);
        SetPhase(s, i, if newRoot.Some? then Built(newRoot.value) else Failed)
      else s
    case CommitNode(i) =>
      if i < |s.calls| && s.calls[i].phase.Built? then
        var c := s.calls[i];
        if c.nodeId in s.nodes then SetPhase(s, i, Failed)
        else SetPhase(s, i, Committed).(
          nodes := s.nodes[c.nodeId := Commits.Node(s.head, Some(c.phase.newRoot))],
          head := Some(c.nodeId),
          log := s.log + [Done(c.op, c.nodeId)],
          order := s.order + [i])
      else s
    case Ends(i) =>
      if i < |s.calls| && (s.calls[i].phase == Committed || s.calls[i].phase == Failed)
         && i < |s.mutex.requests| && s.mutex.requests[i].phase.Running?
      then s.(mutex := Mutex.Leave(s.mutex, i))
      else s
  }

  function Run(s: System, steps: seq<Step>): System
    decreases |steps|
  {
    if steps == [] then s else Run(Next(s, steps[0]), steps[1..])
  }

  /** The commit step is the repository's commit on a branch, without an entry in the log. */
  lemma CommitStepIsCommit(g: Commits.Graph, branch: Commits.RefName, s: System, i: nat)
    requires i < |s.calls| && s.calls[i].phase.Built?
    requires branch in g.branches && g.nodes == s.nodes && g.branches[branch].head == s.head
    ensures var r := Commits.Commit(g, branch, s.calls[i].nodeId, Some(s.calls[i].phase.newRoot), false);
            var s' := Next(s, CommitNode(i));
            && (r.Success? <==> s'.calls[i].phase == Committed)
            && (r.Success? ==> r.value.nodes == s'.nodes && r.value.branches[branch].head == s'.head)
            && (r.Failure? ==> s'.nodes == s.nodes && s'.head == s.head)
  {
  }

  // ---------------------------------------------------------------- what the history should be

  /** The root after applying the logged operations in order. */
  function Replay(log: seq<Done>, root: Option<TreeHash>): Option<TreeHash>
    decreases |log|
  {
    if log == [] then root
    else
      var last := log[|log| - 1];
      if WellFormed(last.op) then Apply(last.op, Replay(log[..|log| - 1], root)) else None
  }

  /**
   * From the head back, the nodes are exactly those of the log: each has the previous head as parent
   * and the replayed tree as root, and before the first of them stands the original head.
   */
  predicate HistoryIs(nodes: Commits.NodeTable, head: Option<Commits.Id>, log: seq<Done>, head0: Option<Commits.Id>, root0: Option<TreeHash>)
    decreases |log|
  {
    if log == [] then head == head0
    else
      && head == Some(log[|log| - 1].nodeId)
      && head.value in nodes
      && nodes[head.value].root.Some?
      && nodes[head.value].root == Replay(log, root0)
      && HistoryIs(nodes, nodes[head.value].parent, log[..|log| - 1], head0, root0)
  }

  lemma {:induction false} HistoryStays(nodes: Commits.NodeTable, more: Commits.NodeTable, head: Option<Commits.Id>, log: seq<Done>,
                                        head0: Option<Commits.Id>, root0: Option<TreeHash>)
    requires HistoryIs(nodes, head, log, head0, root0)
    requires forall id | id in nodes :: id in more && more[id] == nodes[id]
    ensures HistoryIs(more, head, log, head0, root0)
    decreases |log|
  {
    if log != [] {
      HistoryStays(nodes, more, nodes[head.value].parent, log[..|log| - 1], head0, root0);
    }
  }

  // ---------------------------------------------------------------- the invariant

  /** What call `i` knows agrees with the mutex and, while it holds the lock, with the present head. */
  ghost predicate CallOk(s: System, i: nat)
    requires i < |s.calls| && |s.calls| == |s.mutex.requests|
  {
    var q, c := s.mutex.requests[i], s.calls[i];
    && q.key == BRANCH_LOCK && WellFormed(c.op)
    && (q.phase.Waiting? || q.phase.Expired? ==> c.phase == Pending)
    && (q.phase.Running? ==> c.phase != Pending)
    && (q.phase.Finished? ==> c.phase == Committed || c.phase == Failed)
    && (c.phase.HasRoot? ==> c.phase.root == RootOf(s.nodes, s.head))
    && (c.phase.Built? ==> Apply(c.op, RootOf(s.nodes, s.head)) == Some(c.phase.newRoot))
  }

  ghost predicate CallsOk(s: System) {
    |s.calls| == |s.mutex.requests| && forall i | 0 <= i < |s.calls| :: CallOk(s, i)
  }

  /** The log lists the committed calls, each once, in the order in which they asked for the lock. */
  ghost predicate OrderOk(s: System) {
    && |s.order| == |s.log|
    && (forall k | 0 <= k < |s.order| ::
          s.order[k] < |s.calls| && s.log[k] == Done(s.calls[s.order[k]].op, s.calls[s.order[k]].nodeId))
    && (forall i | 0 <= i < |s.calls| :: s.calls[i].phase == Committed <==> i in s.order)
    && (forall a, b | 0 <= a < b < |s.order| :: s.order[a] < s.order[b])
  }

  ghost predicate Inv(s: System, nodes0: Commits.NodeTable, head0: Option<Commits.Id>) {
    && Mutex.Good(s.mutex) && CallsOk(s) && OrderOk(s)
    && HistoryIs(s.nodes, s.head, s.log, head0, RootOf(nodes0, head0))
    && RootOf(s.nodes, s.head) == Replay(s.log, RootOf(nodes0, head0))
    && forall id | id in nodes0 :: id in s.nodes && s.nodes[id] == nodes0[id]
  }

  /** While a call holds the lock, every other call is pending or over. */
  lemma OnlyOneInside(s: System, i: nat, j: nat)
    requires Mutex.Good(s.mutex) && CallsOk(s) && i < |s.calls| && j < |s.calls| && i != j
    requires s.mutex.requests[i].phase.Running?
    ensures s.calls[j].phase == Pending || s.calls[j].phase == Committed || s.calls[j].phase == Failed
  {
    assert CallOk(s, i) && CallOk(s, j);
    assert Mutex.AllReleased(s.mutex, BRANCH_LOCK, i);
    assert s.mutex.requests[j].phase.Running? ==> Mutex.AllReleased(s.mutex, BRANCH_LOCK, j);
  }

  /** A call that works on a tree holds the lock. */
  lemma WorkerHoldsLock(s: System, i: nat)
    requires CallsOk(s) && i < |s.calls|
    requires var p := s.calls[i].phase; p == InBody || p.HasRoot? || p.Built?
    ensures s.mutex.requests[i].phase.Running?
  {
    assert CallOk(s, i);
  }

  /** A mutex step on behalf of call `i` leaves what the other calls know untouched. */
  lemma OtherCallsOk(s: System, s': System, i: nat)
    requires CallsOk(s) && i < |s.calls| == |s'.calls| == |s'.mutex.requests|
    requires s'.nodes == s.nodes && s'.head == s.head
    requires forall j | 0 <= j < |s.calls| && j != i ::
               s'.calls[j] == s.calls[j] && s'.mutex.requests[j] == s.mutex.requests[j]
    requires CallOk(s', i)
    ensures CallsOk(s')
  {
    forall j | 0 <= j < |s'.calls| ensures CallOk(s', j) {
      if j != i { assert CallOk(s, j); }
    }
  }

  lemma RequestKeeps(s: System, op: FileOp, nodeId: Commits.Id, nodes0: Commits.NodeTable, head0: Option<Commits.Id>)
    requires Inv(s, nodes0, head0) && WellFormed(op)
    ensures Inv(Next(s, Asks(op, nodeId)), nodes0, head0)
  {
    var s' := Next(s, Asks(op, nodeId));
    Mutex.EnterGood(s.mutex, BRANCH_LOCK);
    forall j | 0 <= j < |s'.calls| ensures CallOk(s', j) {
      if j < |s.calls| { assert CallOk(s, j); }
    }
    assert |s.calls| !in s.order;
  }

  lemma CommitKeeps(s: System, i: nat, nodes0: Commits.NodeTable, head0: Option<Commits.Id>)
    requires Inv(s, nodes0, head0) && i < |s.calls| && s.calls[i].phase.Built? && s.calls[i].nodeId !in s.nodes
    ensures Inv(Next(s, CommitNode(i)), nodes0, head0)
  {
    var s' := Next(s, CommitNode(i));
    WorkerHoldsLock(s, i);
    forall j | 0 <= j < |s'.calls| ensures CallOk(s', j) {
      assert CallOk(s, j);
      if j != i { OnlyOneInside(s, i, j); }
    }
    assert CallOk(s, i);
    assert s'.log[..|s'.log| - 1] == s.log;
    HistoryStays(s.nodes, s'.nodes, s.head, s.log, head0, RootOf(nodes0, head0));
    CommitOrder(s, i);
  }

  lemma CommitOrder(s: System, i: nat)
    requires Mutex.Good(s.mutex) && CallsOk(s) && OrderOk(s)
    requires i < |s.calls| && s.calls[i].phase.Built? && s.calls[i].nodeId !in s.nodes
    ensures OrderOk(Next(s, CommitNode(i)))
  {
    WorkerHoldsLock(s, i);
    var s' := Next(s, CommitNode(i));
    forall k | 0 <= k < |s.order| ensures s.order[k] < i {
      var j := s.order[k];
      assert j in s.order && CallOk(s, j) && CallOk(s, i);
      assert s.mutex.requests[j].phase.Running? || s.mutex.requests[j].phase.Finished?;
      assert Mutex.AllReleased(s.mutex, BRANCH_LOCK, j);
    }
    assert s'.order == s.order + [i];
    forall j | 0 <= j < |s'.calls| ensures s'.calls[j].phase == Committed <==> j in s'.order {
      assert s.calls[j].phase == Committed <==> j in s.order;
    }
  }

  lemma EntersKeeps(s: System, i: nat, nodes0: Commits.NodeTable, head0: Option<Commits.Id>)
    requires Inv(s, nodes0, head0) && i < |s.calls| && Mutex.CanStart(s.mutex, i)
    ensures Inv(Next(s, Enters(i)), nodes0, head0)
  {
    Mutex.StartGood(s.mutex, i);
    assert CallOk(s, i);
    WorkStepKeeps(s, Next(s, Enters(i)), i, nodes0, head0);
  }

  lemma LeavesKeeps(s: System, i: nat, nodes0: Commits.NodeTable, head0: Option<Commits.Id>)
    requires Inv(s, nodes0, head0) && i < |s.calls| && Mutex.CanLeave(s.mutex, i)
    requires s.mutex.requests[i].phase.Running? ==> s.calls[i].phase == Committed || s.calls[i].phase == Failed
    ensures Inv(s.(mutex := Mutex.Leave(s.mutex, i)), nodes0, head0)
  {
    Mutex.LeaveGood(s.mutex, i);
    assert CallOk(s, i);
    WorkStepKeeps(s, s.(mutex := Mutex.Leave(s.mutex, i)), i, nodes0, head0);
  }

  lemma WorkKeeps(s: System, i: nat, phase: CallPhase, nodes0: Commits.NodeTable, head0: Option<Commits.Id>)
    requires Inv(s, nodes0, head0) && i < |s.calls|
    requires var p := s.calls[i].phase; p == InBody || p.HasRoot? || p.Built?
    requires match phase
             case HasRoot(root) => root == RootOf(s.nodes, s.head)
             case Built(n) => WellFormed(s.calls[i].op) && Apply(s.calls[i].op, RootOf(s.nodes, s.head)) == Some(n)
             case _ => phase == Failed
    ensures Inv(SetPhase(s, i, phase), nodes0, head0)
  {
    WorkerHoldsLock(s, i);
    assert CallOk(s, i);
    WorkStepKeeps(s, SetPhase(s, i, phase), i, nodes0, head0);
  }

  lemma NextKeeps(s: System, a: Step, nodes0: Commits.NodeTable, head0: Option<Commits.Id>)
    requires Inv(s, nodes0, head0)
    ensures Inv(Next(s, a), nodes0, head0)
  {
    match a
    case Asks(op, nodeId) =>
      if WellFormed(op) { RequestKeeps(s, op, nodeId, nodes0, head0); }
    case Enters(i) =>
      if i < |s.calls| && Mutex.CanStart(s.mutex, i) { EntersKeeps(s, i, nodes0, head0); }
    case TimesOut(i) =>
      if Waits(s, i) { LeavesKeeps(s, i, nodes0, head0); }
    case Checkout(i) =>
      if i < |s.calls| && s.calls[i].phase == InBody {
        WorkKeeps(s, i, HasRoot(RootOf(s.nodes, s.head)), nodes0, head0);
      }
    case Build(i) =>
      if i < |s.calls| && s.calls[i].phase.HasRoot? {
        assert CallOk(s, i);
        var n := Apply(s.calls[i].op, s.calls[i].phase.root);
        WorkKeeps(s, i, if n.Some? then Built(n.value) else Failed, nodes0, head0);
      }
    case CommitNode(i) =>
      if i < |s.calls| && s.calls[i].phase.Built? {
        if s.calls[i].nodeId in s.nodes { WorkKeeps(s, i, Failed, nodes0, head0); }
        else { CommitKeeps(s, i, nodes0, head0); }
      }
    case Ends(i) =>
      if Next(s, a) != s { LeavesKeeps(s, i, nodes0, head0); }
  }

  /** A step of one call that does not commit. */
  lemma WorkStepKeeps(s: System, s': System, i: nat, nodes0: Commits.NodeTable, head0: Option<Commits.Id>)
    requires Inv(s, nodes0, head0) && Mutex.Good(s'.mutex)
    requires i < |s.calls| == |s'.calls| == |s'.mutex.requests|
    requires s'.nodes == s.nodes && s'.head == s.head && s'.log == s.log && s'.order == s.order
    requires forall j | 0 <= j < |s.calls| && j != i ::
               s'.calls[j] == s.calls[j] && s'.mutex.requests[j] == s.mutex.requests[j]
    requires s'.calls[i].(phase := Pending) == s.calls[i].(phase := Pending)
    requires s'.calls[i].phase == Committed <==> s.calls[i].phase == Committed
    requires CallOk(s', i)
    ensures Inv(s', nodes0, head0)
  {
    OtherCallsOk(s, s', i);
    assert s'.calls[i].op == s'.calls[i].(phase := Pending).op;
    assert s.calls[i].op == s.calls[i].(phase := Pending).op;
    assert s'.calls[i].nodeId == s'.calls[i].(phase := Pending).nodeId;
    assert s.calls[i].nodeId == s.calls[i].(phase := Pending).nodeId;
  }

  lemma {:induction false} RunKeeps(s: System, steps: seq<Step>, nodes0: Commits.NodeTable, head0: Option<Commits.Id>)
    requires Inv(s, nodes0, head0)
    ensures Inv(Run(s, steps), nodes0, head0)
    decreases |steps|
  {
    if steps != [] {
      NextKeeps(s, steps[0], nodes0, head0);
      RunKeeps(Next(s, steps[0]), steps[1..], nodes0, head0);
    }
  }

  /**
   * No update is lost.  In every interleaving, the history gains exactly one commit per call that
   * succeeds, each on top of the one before, in the order in which the calls asked for the lock, and
   * the tree of the head is the original tree with the operations applied in that order.
   */
  lemma NoLostUpdates(nodes0: Commits.NodeTable, head0: Option<Commits.Id>, steps: seq<Step>)
    ensures var s := Run(Initial(nodes0, head0), steps);
            && HistoryIs(s.nodes, s.head, s.log, head0, RootOf(nodes0, head0))
            && RootOf(s.nodes, s.head) == Replay(s.log, RootOf(nodes0, head0))
            && OrderOk(s)
  {
    RunKeeps(Initial(nodes0, head0), steps, nodes0, head0);
  }

  /** The ids of the log, newest first. */
  function IdsBack(log: seq<Done>): seq<Commits.Id>
    decreases |log|
  {
    if log == [] then [] else [log[|log| - 1].nodeId] + IdsBack(log[..|log| - 1])
  }

  /** The history of the branch lists exactly the logged commits, newest first, and then what it listed before. */
  lemma {:induction false} HistoryListsLog(nodes: Commits.NodeTable, head: Option<Commits.Id>, log: seq<Done>,
                                           head0: Option<Commits.Id>, root0: Option<TreeHash>, limit: nat)
    requires HistoryIs(nodes, head, log, head0, root0)
    ensures Commits.Line(nodes, head, |log| + limit) == IdsBack(log) + Commits.Line(nodes, head0, limit)
    decreases |log|
  {
    if log != [] {
      HistoryListsLog(nodes, nodes[head.value].parent, log[..|log| - 1], head0, root0, limit);
    }
  }

  /**
   * In every run the log and the committed calls are the same: each committed call is logged once, under its
   * operation and id, nothing else is, and calls that asked earlier are logged earlier.
   */
  lemma LogIsCommittedCalls(nodes0: Commits.NodeTable, head0: Option<Commits.Id>, steps: seq<Step>)
    ensures var s := Run(Initial(nodes0, head0), steps);
            && |s.order| == |s.log|
            && (forall k | 0 <= k < |s.log| ::
                  && s.order[k] < |s.calls| && s.calls[s.order[k]].phase == Committed
                  && s.log[k] == Done(s.calls[s.order[k]].op, s.calls[s.order[k]].nodeId))
            && (forall i | 0 <= i < |s.calls| && s.calls[i].phase == Committed :: i in s.order)
            && (forall a, b | 0 <= a < b < |s.log| :: s.order[a] < s.order[b])
  {
    NoLostUpdates(nodes0, head0, steps);
  }

  /** A request is queued last, pending, with its own operation and id, and nothing else changes. */
  lemma AskMeans(s: System, op: FileOp, nodeId: Commits.Id)
    ensures var s' := Next(s, Asks(op, nodeId));
            if WellFormed(op)
            then s'.calls == s.calls + [Call(op, nodeId, Pending)] && s'.mutex == Mutex.Enter(s.mutex, BRANCH_LOCK)
                 && s'.nodes == s.nodes && s'.head == s.head && s'.log == s.log
            else s' == s
  {
  }

  /** A call that waits for the lock can always time out: its request is released and nothing else changes. */
  lemma TimeOutMeans(s: System, i: nat, nodes0: Commits.NodeTable, head0: Option<Commits.Id>)
    requires Inv(s, nodes0, head0) && i < |s.calls| && s.mutex.requests[i].phase.Waiting?
    ensures var s' := Next(s, TimesOut(i));
            && s'.mutex.requests[i].phase.Expired? && s'.calls == s.calls && s'.calls[i].phase == Pending
            && s'.nodes == s.nodes && s'.head == s.head
            && forall j | 0 <= j < |s.calls| && j != i :: s'.mutex.requests[j] == s.mutex.requests[j]
  {
    assert CallOk(s, i);
  }

  // ---------------------------------------------------------------- progress

  /** The steps of one call, from entering to the end; those that are behind it change nothing. */
  function OwnSteps(i: nat): seq<Step> {
    [Enters(i), Checkout(i), Build(i), CommitNode(i), Ends(i)]
  }

  /** The oldest call that is neither over nor timed out. */
  ghost predicate Oldest(s: System, i: nat) {
    && |s.calls| == |s.mutex.requests| && i < |s.calls|
    && !s.mutex.requests[i].phase.Released() && Mutex.AllReleased(s.mutex, BRANCH_LOCK, i)
  }

  predicate Over(s: System, i: nat) {
    i < |s.calls| && (s.calls[i].phase == Committed || s.calls[i].phase == Failed)
  }

  /** The call will commit: its operation applies to the tree of the head, and its id is free. */
  predicate Succeeds(s: System, i: nat)
    requires i < |s.calls|
  {
    WellFormed(s.calls[i].op) && Apply(s.calls[i].op, RootOf(s.nodes, s.head)).Some? && s.calls[i].nodeId !in s.nodes
  }

  /** Entering: the oldest call holds the lock afterwards, and nothing else changes. */
  lemma EntersProgress(s: System, i: nat, nodes0: Commits.NodeTable, head0: Option<Commits.Id>)
    requires Inv(s, nodes0, head0) && Oldest(s, i)
    ensures var s' := Next(s, Enters(i));
            && Inv(s', nodes0, head0) && Oldest(s', i) && s'.mutex.requests[i].phase.Running?
            && s'.nodes == s.nodes && s'.head == s.head && s'.log == s.log
            && |s'.calls| == |s.calls| && s'.calls[i].op == s.calls[i].op && s'.calls[i].nodeId == s.calls[i].nodeId
            && (Over(s', i) <==> Over(s, i)) && (Over(s, i) ==> s'.calls[i].phase == s.calls[i].phase)
            && forall j | 0 <= j < |s.calls| && j != i :: s'.calls[j] == s.calls[j] && s'.mutex.requests[j] == s.mutex.requests[j]
  {
    assert CallOk(s, i);
    NextKeeps(s, Enters(i), nodes0, head0);
    if s.mutex.requests[i].phase.Waiting? {
      Mutex.CanStartExactlyWhen(s.mutex, i);
    }
  }

  /** The three steps of the work of a call. */
  function Work(s: System, i: nat): System {
    Next(Next(Next(s, Checkout(i)), Build(i)), CommitNode(i))
  }

  /** The outcome of a call: it commits exactly when it succeeds, and then the head shows its operation. */
  predicate Outcome(s: System, s': System, i: nat)
    requires i < |s.calls| && i < |s'.calls|
  {
    if Over(s, i) then s'.calls[i].phase == s.calls[i].phase
    else
      && Over(s', i) && (s'.calls[i].phase == Committed <==> Succeeds(s, i))
      && (Succeeds(s, i) ==>
            s'.head == Some(s.calls[i].nodeId) && RootOf(s'.nodes, s'.head) == Apply(s.calls[i].op, RootOf(s.nodes, s.head)))
  }

  /** Working: the holder of the lock reads, builds and commits, or fails. */
  lemma WorkDoes(s: System, i: nat)
    requires i < |s.calls| == |s.mutex.requests| && CallOk(s, i) && s.mutex.requests[i].phase.Running?
    ensures var s' := Work(s, i);
            && s'.mutex == s.mutex && |s'.calls| == |s.calls| && Outcome(s, s', i) && Over(s', i)
            && forall j | 0 <= j < |s.calls| && j != i :: s'.calls[j] == s.calls[j]
  {
  }

  lemma WorkKeepsInv(s: System, i: nat, nodes0: Commits.NodeTable, head0: Option<Commits.Id>)
    requires Inv(s, nodes0, head0)
    ensures Inv(Work(s, i), nodes0, head0)
  {
    NextKeeps(s, Checkout(i), nodes0, head0);
    NextKeeps(Next(s, Checkout(i)), Build(i), nodes0, head0);
    NextKeeps(Next(Next(s, Checkout(i)), Build(i)), CommitNode(i), nodes0, head0);
  }

  /** No call but `i` has changed, nor has its request. */
  ghost predicate OthersSame(s: System, s': System, i: nat) {
    && |s'.calls| == |s.calls| == |s.mutex.requests| == |s'.mutex.requests|
    && forall j | 0 <= j < |s.calls| && j != i :: s'.calls[j] == s.calls[j] && s'.mutex.requests[j] == s.mutex.requests[j]
  }

  lemma RunsOwnSteps(s: System, i: nat)
    ensures Run(s, OwnSteps(i)) == Next(Work(Next(s, Enters(i)), i), Ends(i))
  {
    RunFive(s, Enters(i), Checkout(i), Build(i), CommitNode(i), Ends(i));
  }

  /** At the end the lock is given back. */
  lemma EndDoes(s: System, i: nat)
    requires |s.calls| == |s.mutex.requests| && Over(s, i) && s.mutex.requests[i].phase.Running?
    ensures var s' := Next(s, Ends(i));
            && s'.mutex.requests[i].phase.Finished? && s'.calls == s.calls && OthersSame(s, s', i)
            && s'.nodes == s.nodes && s'.head == s.head
  {
  }

  /**
   * Every call gets through: from any reachable state the oldest call that has not timed out finishes by its
   * own steps.  It commits exactly when its operation applies to the tree of the head and its id is free, and
   * then the head shows the operation; the other calls are not touched.
   */
  lemma OldestGetsThrough(s: System, i: nat, nodes0: Commits.NodeTable, head0: Option<Commits.Id>)
    requires Inv(s, nodes0, head0) && Oldest(s, i)
    ensures var s' := Run(s, OwnSteps(i));
            && Inv(s', nodes0, head0) && OthersSame(s, s', i)
            && s'.mutex.requests[i].phase.Finished? && Over(s', i) && Outcome(s, s', i)
  {
    var s1 := Next(s, Enters(i));
    EntersProgress(s, i, nodes0, head0);
    assert CallOk(s1, i);
    WorkDoes(s1, i);
    WorkKeepsInv(s1, i, nodes0, head0);
    var s4 := Work(s1, i);
    EndDoes(s4, i);
    NextKeeps(s4, Ends(i), nodes0, head0);
    RunsOwnSteps(s, i);
  }

  /** And then the next call that waits can enter. */
  lemma NextCanEnter(s: System, i: nat, j: nat, nodes0: Commits.NodeTable, head0: Option<Commits.Id>)
    requires Inv(s, nodes0, head0) && Oldest(s, i) && i < j < |s.calls| && s.mutex.requests[j].phase.Waiting?
    requires forall k | i < k < j :: s.mutex.requests[k].phase.Released()
    ensures var s' := Run(s, OwnSteps(i)); Oldest(s', j) && Mutex.CanStart(s'.mutex, j)
  {
    OldestGetsThrough(s, i, nodes0, head0);
    var s' := Run(s, OwnSteps(i));
    KeysAreOne(s');
    Mutex.CanStartExactlyWhen(s'.mutex, j);
  }

  lemma KeysAreOne(s: System)
    requires CallsOk(s)
    ensures forall j | 0 <= j < |s.mutex.requests| :: s.mutex.requests[j].key == BRANCH_LOCK
  {
    forall j | 0 <= j < |s.mutex.requests| ensures s.mutex.requests[j].key == BRANCH_LOCK {
      assert CallOk(s, j);
    }
  }

  /** The calls one after the other. */
  function Drain(n: nat): seq<Step> {
    if n == 0 then [] else Drain(n - 1) + OwnSteps(n - 1)
  }

  /** The first `n` calls are over, unless they timed out; the other ones are as they were. */
  ghost predicate Drained(s: System, s': System, n: nat) {
    && |s'.calls| == |s.calls| == |s.mutex.requests| == |s'.mutex.requests|
    && (forall i | 0 <= i < |s.calls| && i < n ::
          s'.mutex.requests[i].phase.Released()
          && (s'.mutex.requests[i].phase.Expired? <==> s.mutex.requests[i].phase.Expired?))
    && (forall i | n <= i < |s.calls| :: s'.calls[i] == s.calls[i] && s'.mutex.requests[i] == s.mutex.requests[i])
  }

  lemma {:induction false} DrainStep(s: System, n: nat, nodes0: Commits.NodeTable, head0: Option<Commits.Id>)
    requires Inv(s, nodes0, head0) && n <= |s.calls|
    ensures Inv(Run(s, Drain(n)), nodes0, head0) && Drained(s, Run(s, Drain(n)), n)
    decreases n
  {
    if n > 0 {
      var before, i := Run(s, Drain(n - 1)), n - 1;
      DrainStep(s, n - 1, nodes0, head0);
      RunAppend(s, Drain(n - 1), OwnSteps(i));
      OwnStepsRelease(before, i, nodes0, head0);
      DrainedOneMore(s, before, Run(before, OwnSteps(i)), i);
    }
  }

  lemma OwnStepsRelease(s: System, i: nat, nodes0: Commits.NodeTable, head0: Option<Commits.Id>)
    requires Inv(s, nodes0, head0) && i < |s.calls| && forall j | 0 <= j < i :: s.mutex.requests[j].phase.Released()
    ensures var s' := Run(s, OwnSteps(i));
            && Inv(s', nodes0, head0) && OthersSame(s, s', i) && s'.mutex.requests[i].phase.Released()
            && (s'.mutex.requests[i].phase.Expired? <==> s.mutex.requests[i].phase.Expired?)
  {
    if s.mutex.requests[i].phase.Released() {
      assert CallOk(s, i);
      ReleasedStays(s, i);
    } else {
      OldestGetsThrough(s, i, nodes0, head0);
    }
  }

  lemma DrainedOneMore(s: System, before: System, s': System, i: nat)
    requires Drained(s, before, i) && i < |s.calls| && OthersSame(before, s', i) && s'.mutex.requests[i].phase.Released()
    requires s'.mutex.requests[i].phase.Expired? <==> before.mutex.requests[i].phase.Expired?
    ensures Drained(s, s', i + 1)
  {
  }

  /** The steps of a call that is over or timed out change nothing. */
  lemma ReleasedStays(s: System, i: nat)
    requires |s.calls| == |s.mutex.requests| && i < |s.calls| && CallOk(s, i) && s.mutex.requests[i].phase.Released()
    ensures Run(s, OwnSteps(i)) == s
  {
    RunsOwnSteps(s, i);
  }

  lemma {:induction false} RunAppend(s: System, a: seq<Step>, b: seq<Step>)
    ensures Run(s, a + b) == Run(Run(s, a), b)
    decreases |a|
  {
    if a == [] {
      assert a + b == b;
    } else {
      assert (a + b)[1..] == a[1..] + b;
      RunAppend(Next(s, a[0]), a[1..], b);
    }
  }

  lemma RunFive(s: System, a: Step, b: Step, c: Step, d: Step, e: Step)
    ensures Run(s, [a, b, c, d, e]) == Next(Next(Next(Next(Next(s, a), b), c), d), e)
  {
    assert [a, b, c, d, e][1..] == [b, c, d, e];
    RunFour(Next(s, a), b, c, d, e);
  }

  /**
   * Nothing gets stuck: after every run the remaining calls can be brought to their end, each by its own
   * steps in turn, so that every call that did not time out has committed or failed.
   */
  lemma NoCallIsStuck(nodes0: Commits.NodeTable, head0: Option<Commits.Id>, steps: seq<Step>)
    ensures var s := Run(Initial(nodes0, head0), steps);
            var s' := Run(s, Drain(|s.calls|));
            Drained(s, s', |s.calls|) && forall i | 0 <= i < |s.calls| && !s.mutex.requests[i].phase.Expired? :: Over(s', i)
  {
    RunKeeps(Initial(nodes0, head0), steps, nodes0, head0);
    var s := Run(Initial(nodes0, head0), steps);
    DrainStep(s, |s.calls|, nodes0, head0);
    var s' := Run(s, Drain(|s.calls|));
    forall i | 0 <= i < |s.calls| && !s.mutex.requests[i].phase.Expired? ensures Over(s', i) {
      assert CallOk(s', i);
    }
  }

  // ---------------------------------------------------------------- in terms of files

  ghost function ReplayFlat(log: seq<Done>, m: FlatTree): FlatTree
    decreases |log|
  {
    if log == [] then m
    else
      var last := log[|log| - 1];
      var before := ReplayFlat(log[..|log| - 1], m);
      if WellFormed(last.op) then ApplyFlat(last.op, before) else before
  }

  /** The files on the branch are the original files with the operations applied one after the other. */
  lemma {:induction false} ReplayIsReplayFlat(nodes: Commits.NodeTable, head: Option<Commits.Id>, log: seq<Done>,
                                              head0: Option<Commits.Id>, root0: Option<TreeHash>)
    requires HistoryIs(nodes, head, log, head0, root0)
    ensures RootFlat(Replay(log, root0)) == ReplayFlat(log, RootFlat(root0))
    decreases |log|
  {
    if log != [] {
      var before, last := log[..|log| - 1], log[|log| - 1];
      ReplayIsReplayFlat(nodes, nodes[head.value].parent, before, head0, root0);
      ApplyIsApplyFlat(last.op, Replay(before, root0));
    }
  }

  // ---------------------------------------------------------------- commits under the other lock key

  /**
   * `commit` and `merge` lock another key, so they may commit while a file operation holds its lock.  A
   * plain commit stores no tree hash.
   */
  function CommitUnderOtherKey(s: System, nodeId: Commits.Id, root: Option<TreeHash>): System {
    s.(nodes := s.nodes[nodeId := Commits.Node(s.head, root)], head := Some(nodeId))
  }

  /** Such a commit between `Build` and `CommitNode` is in the history, but what it did to the tree is gone. */
  lemma OtherKeyIsOverwritten(s: System, i: nat, nodeId: Commits.Id, root: Option<TreeHash>)
    requires i < |s.calls| && s.calls[i].phase.Built? && s.calls[i].nodeId !in s.nodes && s.calls[i].nodeId != nodeId
    ensures var after := Next(CommitUnderOtherKey(s, nodeId, root), CommitNode(i));
            && after.nodes[s.calls[i].nodeId].parent == Some(nodeId)
            && RootOf(after.nodes, after.head) == Some(s.calls[i].phase.newRoot)
  {
  }

  ghost predicate SameFiles(a: Option<TreeHash>, b: Option<TreeHash>) {
    forall q :: RootAt(a, q) == RootAt(b, q)
  }

  /** The same files at every path that is comparable with none of `ps`. */
  ghost predicate SameFilesOff(ps: set<Path>, a: Option<TreeHash>, b: Option<TreeHash>) {
    forall q | Off(ps, q) :: RootAt(a, q) == RootAt(b, q)
  }

  predicate Off(ps: set<Path>, q: Path) {
    forall p | p in ps :: !Comparable(p, q)
  }

  /** The operation, applied after the other commit, would succeed and leave the files that are now there. */
  ghost predicate Kept(op: FileOp, now: Option<TreeHash>, other: Option<TreeHash>)
    requires WellFormed(op)
  {
    Apply(op, other).Some? && SameFiles(now, Apply(op, other))
  }

  /**
   * The other commit left alone what the operation reads, and changed no file off the paths it edits.
   * A delete reads whether there is a tree at all; a move or a copy reads the file it takes.
   */
  ghost predicate Undisturbed(op: FileOp, was: Option<TreeHash>, other: Option<TreeHash>) {
    match op
    case Write(path, _) => SameFilesOff({path}, was, other)
    case Delete(path) => other.Some? && SameFilesOff({path}, was, other)
    case Rename(from, to) => Visible(other, from) == Visible(was, from) && SameFilesOff({from, to}, was, other)
    case Copy(from, to) => Visible(other, from) == Visible(was, from) && SameFilesOff({to}, was, other)
    case AddSubRepo(path, _) => SameFilesOff({path}, was, other)
  }

  /** Editing one path hides all differences at comparable paths, and no others. */
  lemma EditHides(a: Option<TreeHash>, b: Option<TreeHash>, p: Path, e: Option<Entry>)
    requires p != []
    ensures SameFiles(Some(Edit(a, p, e)), Some(Edit(b, p, e))) <==> SameFilesOff({p}, a, b)
  {
    var ea, eb := Some(Edit(a, p, e)), Some(Edit(b, p, e));
    forall q
      ensures if Comparable(p, q) then RootAt(ea, q) == RootAt(eb, q)
              else Off({p}, q) && RootAt(ea, q) == RootAt(a, q) && RootAt(eb, q) == RootAt(b, q)
    {
      EditLaw(a, p, e, q);
      EditLaw(b, p, e, q);
    }
  }

  /** Two writes at one path can only show the same files if they write the same file. */
  lemma SameFilesSameBlob(a: Option<TreeHash>, b: Option<TreeHash>, p: Path, f: FileId, g: FileId)
    requires p != [] && SameFiles(Some(Edit(a, p, Some(Blob(f)))), Some(Edit(b, p, Some(Blob(g)))))
    ensures f == g
  {
    EditLaw(a, p, Some(Blob(f)), p);
    EditLaw(b, p, Some(Blob(g)), p);
    assert RootAt(Some(Edit(a, p, Some(Blob(f)))), p) == RootAt(Some(Edit(b, p, Some(Blob(g)))), p);
  }

  /** Deleting one path first hides the differences comparable with it as well. */
  lemma DeleteHides(a: TreeHash, b: TreeHash, from: Path, to: Path)
    requires from != []
    ensures SameFilesOff({to}, Some(Edit(Some(a), from, None)), Some(Edit(Some(b), from, None)))
       <==> SameFilesOff({from, to}, Some(a), Some(b))
  {
    var da, db := Some(Edit(Some(a), from, None)), Some(Edit(Some(b), from, None));
    forall q
      ensures Comparable(from, q) ==> RootAt(da, q) == RootAt(db, q)
      ensures !Comparable(from, q) ==> RootAt(da, q) == At(a, q) && RootAt(db, q) == At(b, q)
      ensures Off({from, to}, q) <==> Off({to}, q) && !Comparable(from, q)
    {
      EditLaw(Some(a), from, None, q);
      EditLaw(Some(b), from, None, q);
    }
  }

  lemma RenameKept(op: FileOp, was: Option<TreeHash>, now: TreeHash, other: Option<TreeHash>)
    requires WellFormed(op) && op.Rename? && Apply(op, was) == Some(now)
    ensures Kept(op, Some(now), other) <==> Undisturbed(op, was, other)
  {
    var f, g := Visible(was, op.from), Visible(other, op.from);
    if g.Some? {
      var a, b := Edit(was, op.from, None), Edit(other, op.from, None);
      if Kept(op, Some(now), other) {
        SameFilesSameBlob(Some(a), Some(b), op.to, f.value, g.value);
      }
      EditHides(Some(a), Some(b), op.to, Some(Blob(f.value)));
      DeleteHides(was.value, other.value, op.from, op.to);
    }
  }

  lemma CopyKept(op: FileOp, was: Option<TreeHash>, now: TreeHash, other: Option<TreeHash>)
    requires WellFormed(op) && op.Copy? && Apply(op, was) == Some(now)
    ensures Kept(op, Some(now), other) <==> Undisturbed(op, was, other)
  {
    var f, g := Visible(was, op.from), Visible(other, op.from);
    if g.Some? {
      if Kept(op, Some(now), other) {
        SameFilesSameBlob(was, other, op.to, f.value, g.value);
      }
      EditHides(was, other, op.to, Some(Blob(f.value)));
    }
  }

  /** The tree that a call has built from `was` replaces the one that is there when it commits. */
  lemma CommitReplaces(s: System, i: nat, was: Option<TreeHash>)
    requires i < |s.calls| && s.calls[i].phase.Built? && s.calls[i].nodeId !in s.nodes && WellFormed(s.calls[i].op)
    requires Apply(s.calls[i].op, was) == Some(s.calls[i].phase.newRoot)
    ensures var after, other := Next(s, CommitNode(i)), RootOf(s.nodes, s.head);
            Kept(s.calls[i].op, RootOf(after.nodes, after.head), other) <==> Undisturbed(s.calls[i].op, was, other)
  {
    var op, now, other := s.calls[i].op, s.calls[i].phase.newRoot, RootOf(s.nodes, s.head);
    match op
    case Write(path, file) => EditHides(was, other, path, Some(Blob(file)));
    case Delete(path) => EditHides(was, other, path, None);
    case Rename(_, _) => RenameKept(op, was, now, other);
    case Copy(_, _) => CopyKept(op, was, now, other);
    case AddSubRepo(path, repo) => EditHides(was, other, path, Some(SubRepo(repo)));
  }

  /** A commit under the other key: its id, and its tree hash if it has one. */
  datatype OtherCommit = OtherCommit(nodeId: Commits.Id, root: Option<TreeHash>)

  function CommitOthers(s: System, others: seq<OtherCommit>): System
    decreases |others|
  {
    if others == [] then s
    else CommitOthers(CommitUnderOtherKey(s, others[0].nodeId, others[0].root), others[1..])
  }

  /** The ids of other commits are fresh: none is the one that the call will use. */
  predicate Fresh(others: seq<OtherCommit>, nodeId: Commits.Id) {
    forall k | 0 <= k < |others| :: others[k].nodeId != nodeId
  }

  lemma {:induction false} OthersKeep(s: System, others: seq<OtherCommit>, nodeId: Commits.Id)
    requires Fresh(others, nodeId) && nodeId !in s.nodes
    ensures CommitOthers(s, others).calls == s.calls && nodeId !in CommitOthers(s, others).nodes
    decreases |others|
  {
    if others != [] {
      OthersKeep(CommitUnderOtherKey(s, others[0].nodeId, others[0].root), others[1..], nodeId);
    }
  }

  /** From the read of the root to the commit, with other commits before and after the tree is built. */
  function CommitAmongOthers(s: System, i: nat, before: seq<OtherCommit>, between: seq<OtherCommit>): System {
    CommitOthers(Next(CommitOthers(s, before), Build(i)), between)
  }

  /**
   * What other commits did is kept exactly when they did not disturb the operation.  They may come at any
   * point between the read of the root and the commit, in any number: the branch shows the operation applied
   * to the tree that the last of them left if and only if that tree has what the operation reads as it was,
   * and no other file off the paths it edits.
   */
  lemma OverwrittenExactlyWhen(s: System, i: nat, before: seq<OtherCommit>, between: seq<OtherCommit>)
    requires CallsOk(s) && i < |s.calls| && s.calls[i].nodeId !in s.nodes
    requires s.calls[i].phase.HasRoot? || s.calls[i].phase.Built?
    requires Fresh(before, s.calls[i].nodeId) && Fresh(between, s.calls[i].nodeId)
    ensures WellFormed(s.calls[i].op) && i < |CommitAmongOthers(s, i, before, between).calls|
    ensures var s', op := CommitAmongOthers(s, i, before, between), s.calls[i].op;
            var after, other := Next(s', CommitNode(i)), RootOf(s'.nodes, s'.head);
            s'.calls[i].phase.Built? ==>
              (Kept(op, RootOf(after.nodes, after.head), other) <==> Undisturbed(op, RootOf(s.nodes, s.head), other))
  {
    assert CallOk(s, i);
    var id := s.calls[i].nodeId;
    OthersKeep(s, before, id);
    var built := Next(CommitOthers(s, before), Build(i));
    OthersKeep(built, between, id);
    var s' := CommitOthers(built, between);
    if s'.calls[i].phase.Built? {
      CommitReplaces(s', i, RootOf(s.nodes, s.head));
    }
  }

  /** One writer that has built its tree and not yet committed. */
  predicate ReadyToCommit(s: System) {
    s.nodes == map[] && s.calls == [Call(Write(["b"], "2"), "n", Built(Digest(map["b" := Blob("2")])))]
  }

  /** A reachable case: the file `a` that the other commit added is missing after `b` is written. */
  lemma UpdateLostAcrossKeys(s: System)
    requires ReadyToCommit(s)
    ensures var between := CommitUnderOtherKey(s, "m", Some(Digest(map["a" := Blob("1")])));
            var after := Next(between, CommitNode(0));
            && RootAt(RootOf(between.nodes, between.head), ["a"]) == Some("1")
            && RootAt(RootOf(after.nodes, after.head), ["a"]) == None
  {
    OtherKeyIsOverwritten(s, 0, "m", Some(Digest(map["a" := Blob("1")])));
    assert "m" != "n";
  }

  lemma ReadyToCommitIsReachable()
    ensures exists steps :: ReadyToCommit(Run(Initial(map[], None), steps))
  {
    var op := Write(["b"], "2");
    var steps := [Asks(op, "n"), Enters(0), Checkout(0), Build(0)];
    var s1 := Next(Initial(map[], None), Asks(op, "n"));
    assert Mutex.Resolved(s1.mutex.promises, 0);
    RunFour(Initial(map[], None), Asks(op, "n"), Enters(0), Checkout(0), Build(0));
    assert ReadyToCommit(Run(Initial(map[], None), steps));
  }

  lemma RunFour(s: System, a: Step, b: Step, c: Step, d: Step)
    ensures Run(s, [a, b, c, d]) == Next(Next(Next(Next(s, a), b), c), d)
  {
    assert [a, b, c, d][1..] == [b, c, d] && [b, c, d][1..] == [c, d] && [c, d][1..] == [d] && [d][1..] == [];
    var s1 := Next(s, a);
    var s2 := Next(s1, b);
    assert Run(s, [a, b, c, d]) == Run(s1, [b, c, d]) == Run(s2, [c, d]);
    assert Run(s2, [c, d]) == Run(Next(s2, c), [d]);
  }
}
