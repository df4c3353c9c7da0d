/**
 * The commit graph: nodes with a parent pointer, and the branches, tags, stashes and reflog entries
 * that point at nodes.  Each repository operation is a function on these tables; the class in
 * `Repository` carries them out.  Refs are resolved from the tables.
 */
module CommitGraph {
  import opened Wrappers
  import opened MerkleTrees

  type Id = string
  type RefName = string

  datatype Node = Node(parent: Option<Id>, root: Option<TreeHash>)
  /** A branch with no commit yet has no head; the source stores an empty string. */
  datatype Branch = Branch(head: Option<Id>, ephemeral: bool, createdAt: int)
  datatype LogEntry = LogEntry(oldHead: Option<Id>, newHead: Id)

  type NodeTable = map<Id, Node>

  datatype Graph = Graph(
    nodes: NodeTable,
    branches: map<RefName, Branch>,
    tags: map<RefName, Id>,
    stashes: map<string, Id>,
    reflog: seq<LogEntry>)

  const EMPTY := Graph(map[], map[], map[], map[], [])

  // ---------------------------------------------------------------- ancestors and history

  /** The `k`-th ancestor; the zeroth is the node itself. */
  function Nth(nodes: NodeTable, id: Option<Id>, k: nat): Option<Id>
    decreases k
  {
    if id.None? || id.value !in nodes then None
    else if k == 0 then id
    else Nth(nodes, nodes[id.value].parent, k - 1)
  }

  ghost predicate IsAncestor(nodes: NodeTable, a: Id, id: Id) {
    exists k: nat :: Nth(nodes, Some(id), k) == Some(a)
  }

  /** What `history` lists: a node and its nearest ancestors, at most `limit` in all. */
  function Line(nodes: NodeTable, id: Option<Id>, limit: nat): seq<Id>
    decreases limit
  {
    if limit == 0 || id.None? || id.value !in nodes then []
    else [id.value] + Line(nodes, nodes[id.value].parent, limit - 1)
  }

  lemma {:induction false} NthAdd(nodes: NodeTable, id: Option<Id>, j: nat, k: nat)
    ensures Nth(nodes, Nth(nodes, id, j), k) == Nth(nodes, id, j + k)
    decreases j
  {
    if id.Some? && id.value in nodes && j > 0 {
      NthAdd(nodes, nodes[id.value].parent, j - 1, k);
    }
  }

  lemma {:induction false} LineIsNth(nodes: NodeTable, id: Option<Id>, limit: nat, k: nat)
    ensures k < |Line(nodes, id, limit)| <==> k < limit && Nth(nodes, id, k).Some?
    ensures k < |Line(nodes, id, limit)| ==> Some(Line(nodes, id, limit)[k]) == Nth(nodes, id, k)
    ensures |Line(nodes, id, limit)| <= limit
    decreases limit
  {
    if limit > 0 && id.Some? && id.value in nodes {
      LineIsNth(nodes, nodes[id.value].parent, limit - 1, if k == 0 then 0 else k - 1);
    }
  }

  // ---------------------------------------------------------------- soundness

  /** Every parent is a node that was born earlier, so there is no cycle. */
  ghost predicate Ranked(nodes: NodeTable, born: map<Id, nat>) {
    forall id | id in nodes ::
      && id in born
      && (nodes[id].parent.Some? ==>
            nodes[id].parent.value in nodes && nodes[id].parent.value in born
            && born[nodes[id].parent.value] < born[id])
  }

  ghost predicate Acyclic(nodes: NodeTable) {
    exists born :: Ranked(nodes, born)
  }

  ghost predicate Points(nodes: NodeTable, head: Option<Id>) {
    head.Some? ==> head.value in nodes
  }

  /** Nothing dangles. */
  ghost predicate RefsExist(g: Graph) {
    && (forall b | b in g.branches :: Points(g.nodes, g.branches[b].head))
    && (forall t | t in g.tags :: g.tags[t] in g.nodes)
    && (forall s | s in g.stashes :: g.stashes[s] in g.nodes)
    && (forall i | 0 <= i < |g.reflog| :: Points(g.nodes, g.reflog[i].oldHead) && g.reflog[i].newHead in g.nodes)
  }

  ghost predicate Sound(g: Graph) {
    RefsExist(g) && Acyclic(g.nodes)
  }

  ghost predicate Descends(line: seq<Id>, born: map<Id, nat>) {
    forall i, j | 0 <= i < j < |line| :: line[j] in born && line[i] in born && born[line[j]] < born[line[i]]
  }

  /** A node and its ancestors are pairwise different, so every history ends. */
  lemma {:induction false} LineShrinks(nodes: NodeTable, born: map<Id, nat>, id: Id, limit: nat)
    requires Ranked(nodes, born) && id in nodes
    ensures Descends(Line(nodes, Some(id), limit), born)
    ensures forall x | x in Line(nodes, Some(id), limit) :: x in nodes && x in born && born[x] <= born[id]
    decreases limit
  {
    if limit > 0 && nodes[id].parent.Some? {
      var p := nodes[id].parent.value;
      LineShrinks(nodes, born, p, limit - 1);
      assert Line(nodes, Some(id), limit) == [id] + Line(nodes, Some(p), limit - 1);
    }
  }

  ghost predicate Distinct(s: seq<Id>) {
    forall i, j | 0 <= i < j < |s| :: s[i] != s[j]
  }

  lemma {:induction false} DistinctFits(s: seq<Id>, all: set<Id>)
    requires Distinct(s) && forall x | x in s :: x in all
    ensures |s| <= |all|
    decreases |s|
  {
    if s != [] {
      assert s == [s[0]] + s[1..];
      DistinctFits(s[1..], all - {s[0]});
    }
  }

  /** History without a limit terminates: it repeats no commit and reaches one that has no parent. */
  lemma HistoryEnds(g: Graph, id: Id)
    requires Sound(g) && id in g.nodes
    ensures var line := Line(g.nodes, Some(id), |g.nodes| + 1);
            && 0 < |line| <= |g.nodes| && Distinct(line)
            && line[|line| - 1] in g.nodes && g.nodes[line[|line| - 1]].parent == None
  {
    var born :| Ranked(g.nodes, born);
    var limit := |g.nodes| + 1;
    var line := Line(g.nodes, Some(id), limit);
    LineShrinks(g.nodes, born, id, limit);
    assert Descends(line, born);
    DistinctFits(line, g.nodes.Keys);
    var last := |line| - 1;
    LineIsNth(g.nodes, Some(id), limit, last);
    LineIsNth(g.nodes, Some(id), limit, last + 1);
    NthAdd(g.nodes, Some(id), last, 1);
    assert line[last] in line;
    assert Nth(g.nodes, Nth(g.nodes, Some(id), last), 1) == None;
  }

  // ---------------------------------------------------------------- the operations

  /** Branch first, then tag, then node id. */
  function ResolveRef(g: Graph, ref: RefName): Option<Id> {
    if ref in g.branches then g.branches[ref].head
    else if ref in g.tags then Some(g.tags[ref])
    else if ref in g.nodes then Some(ref)
    else None
  }

  function CreateBranch(g: Graph, name: RefName, from: Option<RefName>, ephemeral: bool, now: int): Result<Graph> {
    if from.Some? && ResolveRef(g, from.value).None? then Failure(RefNotFound)
    else
      var head := if from.Some? then ResolveRef(g, from.value) else None;
      Success(g.(branches := g.branches[name := Branch(head, ephemeral, now)]))
  }

  function DeleteBranch(g: Graph, name: RefName): Result<Graph> {
    if name == "main" || name == "master" then Failure(ProtectedBranch)
    else Success(g.(branches := g.branches - {name}))
  }

  function SetHead(branches: map<RefName, Branch>, name: RefName, id: Id): map<RefName, Branch> {
    if name in branches then branches[name := branches[name].(head := Some(id))] else branches
  }

  /** A commit on a branch; file operations commit without a reflog entry. */
  function Commit(g: Graph, branch: RefName, id: Id, root: Option<TreeHash>, logged: bool): Result<Graph> {
    if branch !in g.branches then Failure(BranchNotFound)
    else if id in g.nodes then Failure(DuplicateId)
    else Success(g.(
      nodes := g.nodes[id := Node(g.branches[branch].head, root)],
      branches := SetHead(g.branches, branch, id),
      reflog := if logged then g.reflog + [LogEntry(None, id)] else g.reflog))
  }

  /** A hard reset moves the head; a soft reset (`soft` names the new node) first adds a node on top. */
  function Reset(g: Graph, branch: RefName, target: RefName, soft: Option<Id>): Result<Graph> {
    var to, from := ResolveRef(g, target), ResolveRef(g, branch);
    if to.None? || from.None? then Failure(RefNotFound)
    else if soft.Some? && soft.value in g.nodes then Failure(DuplicateId)
    else
      var head := if soft.Some? then soft.value else to.value;
      Success(g.(
        nodes := if soft.Some? then g.nodes[head := Node(from, None)] else g.nodes,
        branches := SetHead(g.branches, branch, head),
        reflog := g.reflog + [LogEntry(from, head)]))
  }

  function TagRef(g: Graph, name: RefName, ref: RefName): Result<Graph> {
    var head := ResolveRef(g, ref);
    if head.None? then Failure(RefNotFound) else Success(g.(tags := g.tags[name := head.value]))
  }

  function DeleteTag(g: Graph, name: RefName): Result<Graph> {
    Success(g.(tags := g.tags - {name}))
  }

  function Stash(g: Graph, stash: string, ref: RefName): Result<Graph> {
    var head := ResolveRef(g, ref);
    if head.None? then Failure(EmptyBranch)
    else if stash in g.stashes then Failure(DuplicateId)
    else Success(g.(stashes := g.stashes[stash := head.value]))
  }

  const ONE_HOUR: int := 3600000

  predicate Expired(b: Branch, now: int) {
    b.ephemeral && b.createdAt < now - ONE_HOUR
  }

  function Unexpired(branches: map<RefName, Branch>, now: int): map<RefName, Branch> {
    map b | b in branches && !Expired(branches[b], now) :: branches[b]
  }

  /** Everything the collector starts from: surviving branches, tags, stashes, both sides of the reflog. */
  function Heads(g: Graph): set<Id> {
    (set b | b in g.branches && g.branches[b].head.Some? :: g.branches[b].head.value)
    + g.tags.Values
    + g.stashes.Values
    + (set i | 0 <= i < |g.reflog| :: g.reflog[i].newHead)
    + (set i | 0 <= i < |g.reflog| && g.reflog[i].oldHead.Some? :: g.reflog[i].oldHead.value)
  }

  ghost predicate Live(g: Graph, id: Id) {
    exists h :: h in Heads(g) && IsAncestor(g.nodes, id, h)
  }

  /** The graph after garbage collection: expired branches and unreachable nodes are gone. */
  ghost function Collect(g: Graph, now: int): Graph {
    var kept := g.(branches := Unexpired(g.branches, now));
    kept.(nodes := map id | id in g.nodes && Live(kept, id) :: g.nodes[id])
  }

  // ---------------------------------------------------------------- every run

  datatype Action =
    | DoCreateBranch(name: RefName, from: Option<RefName>, ephemeral: bool, now: int)
    | DoDeleteBranch(name: RefName)
    | DoCommit(name: RefName, id: Id, root: Option<TreeHash>, logged: bool)
    | DoReset(name: RefName, target: RefName, soft: Option<Id>)
    | DoTag(name: RefName, target: RefName)
    | DoDeleteTag(name: RefName)
    | DoStash(name: RefName, target: RefName)
    | DoCollect(now: int)

  ghost function Try(g: Graph, a: Action): Result<Graph> {
    match a
    case DoCreateBranch(name, from, ephemeral, now) => CreateBranch(g, name, from, ephemeral, now)
    case DoDeleteBranch(name) => DeleteBranch(g, name)
    case DoCommit(name, id, root, logged) => Commit(g, name, id, root, logged)
    case DoReset(name, target, soft) => Reset(g, name, target, soft)
    case DoTag(name, target) => TagRef(g, name, target)
    case DoDeleteTag(name) => DeleteTag(g, name)
    case DoStash(name, target) => Stash(g, name, target)
    case DoCollect(now) => Success(Collect(g, now))
  }

  /** A call that throws leaves the tables as they were. */
  ghost function Next(g: Graph, a: Action): Graph {
    if Try(g, a).Success? then Try(g, a).value else g
  }

  ghost function Run(g: Graph, actions: seq<Action>): Graph
    decreases |actions|
  {
    if actions == [] then g else Run(Next(g, actions[0]), actions[1..])
  }

  /** A new node on top of an existing one, or on nothing, keeps the ranking. */
  lemma AddNodeRanked(nodes: NodeTable, id: Id, n: Node)
    requires id !in nodes && Points(nodes, n.parent) && Acyclic(nodes)
    ensures Acyclic(nodes[id := n])
  {
    var born :| Ranked(nodes, born);
    var age := if n.parent.Some? then born[n.parent.value] + 1 else 0;
    assert Ranked(nodes[id := n], born[id := age]);
  }

  lemma ParentLives(g: Graph, id: Id)
    requires id in g.nodes && g.nodes[id].parent.Some? && g.nodes[id].parent.value in g.nodes && Live(g, id)
    ensures Live(g, g.nodes[id].parent.value)
  {
    var h :| h in Heads(g) && IsAncestor(g.nodes, id, h);
    var k: nat :| Nth(g.nodes, Some(h), k) == Some(id);
    NthAdd(g.nodes, Some(h), k, 1);
    var p := g.nodes[id].parent;
    assert Nth(g.nodes, p, 0) == p;
    assert Nth(g.nodes, Some(id), 1) == p;
    assert IsAncestor(g.nodes, p.value, h);
  }

  lemma HeadLives(g: Graph, h: Id)
    requires h in Heads(g) && h in g.nodes
    ensures Live(g, h)
  {
    assert Nth(g.nodes, Some(h), 0) == Some(h);
    assert IsAncestor(g.nodes, h, h);
  }

  lemma CollectSound(g: Graph, now: int)
    requires Sound(g)
    ensures Sound(Collect(g, now))
  {
    var kept := g.(branches := Unexpired(g.branches, now));
    var c := Collect(g, now);
    var born :| Ranked(g.nodes, born);
    forall id | id in c.nodes && c.nodes[id].parent.Some?
      ensures c.nodes[id].parent.value in c.nodes
    {
      ParentLives(kept, id);
    }
    assert Ranked(c.nodes, born);
    assert Heads(kept) == Heads(c);
    forall h | h in Heads(kept) && h in g.nodes ensures h in c.nodes {
      HeadLives(kept, h);
    }
    forall b | b in c.branches ensures Points(c.nodes, c.branches[b].head) {
      if c.branches[b].head.Some? { assert c.branches[b].head.value in Heads(kept); }
    }
    forall t | t in c.tags ensures c.tags[t] in c.nodes {
      assert c.tags[t] in kept.tags.Values;
    }
    forall s | s in c.stashes ensures c.stashes[s] in c.nodes {
      assert c.stashes[s] in kept.stashes.Values;
    }
    forall i | 0 <= i < |c.reflog|
      ensures Points(c.nodes, c.reflog[i].oldHead) && c.reflog[i].newHead in c.nodes
    {
      assert c.reflog[i].newHead in Heads(kept);
      if c.reflog[i].oldHead.Some? { assert c.reflog[i].oldHead.value in Heads(kept); }
    }
  }

  lemma ResolvedExists(g: Graph, ref: RefName)
    requires Sound(g)
    ensures Points(g.nodes, ResolveRef(g, ref))
  {
  }

  lemma CommitSound(g: Graph, branch: RefName, id: Id, root: Option<TreeHash>, logged: bool)
    requires Sound(g) && Commit(g, branch, id, root, logged).Success?
    ensures Sound(Commit(g, branch, id, root, logged).value)
  {
    AddNodeRanked(g.nodes, id, Node(g.branches[branch].head, root));
  }

  lemma ResetSound(g: Graph, branch: RefName, target: RefName, soft: Option<Id>)
    requires Sound(g) && Reset(g, branch, target, soft).Success?
    ensures Sound(Reset(g, branch, target, soft).value)
  {
    if soft.Some? {
      AddNodeRanked(g.nodes, soft.value, Node(ResolveRef(g, branch), None));
    }
  }

  /** Every operation keeps the graph sound. */
  lemma NextSound(g: Graph, a: Action)
    requires Sound(g)
    ensures Sound(Next(g, a))
  {
    if Try(g, a).Success? {
      match a
      case DoCommit(name, id, root, logged) => CommitSound(g, name, id, root, logged);
      case DoReset(name, target, soft) => ResetSound(g, name, target, soft);
      case DoCollect(now) => CollectSound(g, now);
      case _ =>
    }
  }

  /** In every run from the empty repository the parent relation is acyclic and nothing dangles. */
  lemma {:induction false} RunSound(g: Graph, actions: seq<Action>)
    requires Sound(g)
    ensures Sound(Run(g, actions))
    decreases |actions|
  {
    if actions != [] {
      NextSound(g, actions[0]);
      RunSound(Next(g, actions[0]), actions[1..]);
    }
  }

  lemma EmptySound()
    ensures Sound(EMPTY)
  {
    assert Ranked(EMPTY.nodes, map[]);
  }

  /** A run ends with its last action. */
  lemma {:induction false} RunSnoc(g: Graph, actions: seq<Action>, a: Action)
    ensures Run(g, actions + [a]) == Next(Run(g, actions), a)
    decreases |actions|
  {
    if actions == [] {
      assert [a][1..] == [];
    } else {
      assert (actions + [a])[1..] == actions[1..] + [a];
      RunSnoc(Next(g, actions[0]), actions[1..], a);
    }
  }

  // ---------------------------------------------------------------- what each operation does

  /** The tables are the same but for the branches named and the log. */
  ghost predicate OnlyBranch(g: Graph, g': Graph, name: RefName) {
    && (forall b | b != name :: (b in g'.branches <==> b in g.branches) && (b in g.branches ==> g'.branches[b] == g.branches[b]))
    && g'.tags == g.tags && g'.stashes == g.stashes
  }

  /** Branches shadow tags, and tags shadow node ids; a branch without a commit resolves to nothing. */
  lemma ResolveOrder(g: Graph, ref: RefName)
    ensures ref in g.branches && g.branches[ref].head.Some? ==> ResolveRef(g, ref) == g.branches[ref].head
    ensures ref in g.branches && g.branches[ref].head.None? ==> ResolveRef(g, ref) == None
    ensures ref !in g.branches && ref in g.tags ==> ResolveRef(g, ref) == Some(g.tags[ref])
    ensures ref !in g.branches && ref !in g.tags ==> ResolveRef(g, ref) == if ref in g.nodes then Some(ref) else None
  {
  }

  /**
   * A new branch resolves to the commit it was started from, or to nothing without a start; it has the given
   * kind and age, and nothing else changes.  It fails exactly when the start does not resolve.
   */
  lemma CreateBranchMeans(g: Graph, name: RefName, from: Option<RefName>, ephemeral: bool, now: int)
    ensures var r := CreateBranch(g, name, from, ephemeral, now);
            && (r.Failure? <==> from.Some? && ResolveRef(g, from.value) == None)
            && (r.Success? ==>
                  && ResolveRef(r.value, name) == (if from.Some? then ResolveRef(g, from.value) else None)
                  && name in r.value.branches && r.value.branches[name].ephemeral == ephemeral
                  && r.value.branches[name].createdAt == now
                  && OnlyBranch(g, r.value, name) && r.value.nodes == g.nodes && r.value.reflog == g.reflog)
  {
  }

  /** Deleting removes that branch and nothing else, and is refused exactly for `main` and `master`. */
  lemma DeleteBranchMeans(g: Graph, name: RefName)
    ensures var r := DeleteBranch(g, name);
            && (r.Failure? <==> name == "main" || name == "master")
            && (r.Success? ==> name !in r.value.branches && OnlyBranch(g, r.value, name)
                               && r.value.nodes == g.nodes && r.value.reflog == g.reflog)
  {
  }

  /**
   * A commit adds one node, with the old head as parent and the given tree; the branch keeps its kind and
   * age, and the log gains an entry exactly when asked to.
   */
  lemma CommitMeans(g: Graph, branch: RefName, id: Id, root: Option<TreeHash>, logged: bool)
    ensures var r := Commit(g, branch, id, root, logged);
            && (r.Success? <==> branch in g.branches && id !in g.nodes)
            && (r.Success? ==>
                  && r.value.nodes.Keys == g.nodes.Keys + {id} && (forall n | n in g.nodes :: r.value.nodes[n] == g.nodes[n])
                  && r.value.nodes[id].parent == g.branches[branch].head && r.value.nodes[id].root == root
                  && r.value.branches[branch] == g.branches[branch].(head := Some(id)) && OnlyBranch(g, r.value, branch)
                  && r.value.reflog == g.reflog + if logged then [LogEntry(None, id)] else [])
  {
  }

  /**
   * A hard reset moves the branch to the commit that the target resolves to: the history of the branch is
   * then that of the target.  No node and no other branch changes, and the log keeps both commits.
   */
  lemma HardResetMeans(g: Graph, branch: RefName, target: RefName, limit: nat)
    requires branch in g.branches
    ensures var r := Reset(g, branch, target, None);
            && (r.Success? <==> ResolveRef(g, target).Some? && g.branches[branch].head.Some?)
            && (r.Success? ==>
                  && ResolveRef(r.value, branch) == ResolveRef(g, target)
                  && Line(r.value.nodes, ResolveRef(r.value, branch), limit) == Line(g.nodes, ResolveRef(g, target), limit)
                  && r.value.nodes == g.nodes && OnlyBranch(g, r.value, branch)
                  && r.value.branches[branch].(head := None) == g.branches[branch].(head := None)
                  && r.value.reflog == g.reflog + [LogEntry(g.branches[branch].head, ResolveRef(g, target).value)])
  {
  }

  /** A soft reset adds one node without a tree hash on top of the old head, and changes nothing else. */
  lemma SoftResetMeans(g: Graph, branch: RefName, target: RefName, id: Id)
    requires branch in g.branches
    ensures var r := Reset(g, branch, target, Some(id));
            && (r.Success? <==> ResolveRef(g, target).Some? && g.branches[branch].head.Some? && id !in g.nodes)
            && (r.Success? ==>
                  && ResolveRef(r.value, branch) == Some(id)
                  && r.value.nodes == g.nodes[id := Node(g.branches[branch].head, None)] && OnlyBranch(g, r.value, branch)
                  && r.value.reflog == g.reflog + [LogEntry(g.branches[branch].head, id)])
  {
  }

  /** A tag resolves to what the ref resolved to, unless a branch has its name; deleting it undoes that. */
  lemma TagMeans(g: Graph, name: RefName, ref: RefName)
    ensures var r := TagRef(g, name, ref);
            && (r.Success? <==> ResolveRef(g, ref).Some?)
            && (r.Success? ==>
                  && (name !in g.branches ==> ResolveRef(r.value, name) == ResolveRef(g, ref))
                  && (forall other | other != name :: ResolveRef(r.value, other) == ResolveRef(g, other))
                  && r.value.(tags := g.tags) == g)
    ensures var d := DeleteTag(g, name);
            d.Success? && name !in d.value.tags && d.value.(tags := g.tags) == g
            && forall other | other != name :: ResolveRef(d.value, other) == ResolveRef(g, other)
  {
  }

  /** A stash keeps the commit that the branch resolves to. */
  lemma StashMeans(g: Graph, stash: string, ref: RefName)
    ensures var r := Stash(g, stash, ref);
            && (r.Success? <==> ResolveRef(g, ref).Some? && stash !in g.stashes)
            && (r.Success? ==> stash in r.value.stashes && Some(r.value.stashes[stash]) == ResolveRef(g, ref)
                               && r.value.stashes - {stash} == g.stashes && r.value.(stashes := g.stashes) == g)
  {
    assert stash !in g.stashes ==> g.stashes - {stash} == g.stashes;
  }

  // ---------------------------------------------------------------- histories do not change

  /** Every row of `sub` is in `all`, and `sub` is closed under parents. */
  ghost predicate SubGraph(sub: NodeTable, all: NodeTable) {
    forall id | id in sub :: id in all && sub[id] == all[id] && Points(sub, sub[id].parent)
  }

  lemma {:induction false} SameLine(sub: NodeTable, all: NodeTable, id: Option<Id>, limit: nat)
    requires SubGraph(sub, all) && Points(sub, id)
    ensures Line(sub, id, limit) == Line(all, id, limit)
    decreases limit
  {
    if limit > 0 && id.Some? {
      SameLine(sub, all, sub[id.value].parent, limit - 1);
    }
  }

  lemma {:induction false} SameNth(sub: NodeTable, all: NodeTable, id: Option<Id>, k: nat)
    requires SubGraph(sub, all) && Points(sub, id)
    ensures Nth(sub, id, k) == Nth(all, id, k)
    decreases k
  {
    if k > 0 && id.Some? {
      SameNth(sub, all, sub[id.value].parent, k - 1);
    }
  }

  /** As long as a commit exists, no operation changes its history. */
  lemma HistoryStable(g: Graph, a: Action, id: Id, limit: nat)
    requires Sound(g) && id in g.nodes && id in Next(g, a).nodes
    ensures Line(Next(g, a).nodes, Some(id), limit) == Line(g.nodes, Some(id), limit)
  {
    NextSound(g, a);
    if a.DoCollect? {
      SameLine(Next(g, a).nodes, g.nodes, Some(id), limit);
    } else {
      SameLine(g.nodes, Next(g, a).nodes, Some(id), limit);
    }
  }

  /** The history after a commit is the new node followed by the history of the old head. */
  lemma CommitHistory(g: Graph, branch: RefName, id: Id, root: Option<TreeHash>, logged: bool, limit: nat)
    requires Sound(g) && Commit(g, branch, id, root, logged).Success?
    ensures var g' := Commit(g, branch, id, root, logged).value;
            && ResolveRef(g', branch) == Some(id)
            && Line(g'.nodes, Some(id), limit + 1) == [id] + Line(g.nodes, g.branches[branch].head, limit)
  {
    var g' := Commit(g, branch, id, root, logged).value;
    SameLine(g.nodes, g'.nodes, g.branches[branch].head, limit);
  }

  /** A soft reset puts one node on top of the old head, so the old head stays in the history. */
  lemma SoftResetHistory(g: Graph, branch: RefName, target: RefName, id: Id, limit: nat)
    requires Sound(g) && Reset(g, branch, target, Some(id)).Success?
    ensures var g' := Reset(g, branch, target, Some(id)).value;
            Line(g'.nodes, Some(id), limit + 1) == [id] + Line(g.nodes, ResolveRef(g, branch), limit)
  {
    var g' := Reset(g, branch, target, Some(id)).value;
    ResolvedExists(g, branch);
    SameLine(g.nodes, g'.nodes, ResolveRef(g, branch), limit);
  }
}
