/**
 * What garbage collection keeps and drops.  Nodes are judged by reachability in the commit graph.  A
 * directory tree is live when it is contained in the root of a surviving node, but the collector keeps the
 * ones it reads on its way down from those roots, which are others when a directory reads wrongly.
 */
module GarbageCollection {
  import opened Wrappers
  import opened Paths
  import opened MerkleTrees
  import opened TreeViews
  import opened TreeStorage
  import opened CommitGraph

  ghost predicate RootsStored(nodes: NodeTable, trees: TreeTable) {
    forall id | id in nodes && nodes[id].root.Some? :: nodes[id].root.value in trees
  }

  /** The directory is the root of a node, or inside one, at most `levels` levels down. */
  ghost predicate InSomeRoot(nodes: NodeTable, t: TreeHash, levels: nat) {
    exists id :: id in nodes && nodes[id].root.Some? && Contains(nodes[id].root.value, t, levels)
  }

  ghost predicate LiveTree(nodes: NodeTable, t: TreeHash) {
    exists levels: nat :: InSomeRoot(nodes, t, levels)
  }

  /** No root is deeper than the walk goes. */
  ghost predicate Shallow(nodes: NodeTable) {
    forall id | id in nodes && nodes[id].root.Some? :: WithinLevels(nodes[id].root.value, LEVELS)
  }

  /** The tree table after collection, given the surviving nodes. */
  ghost function CollectTrees(nodes: NodeTable, trees: TreeTable): TreeTable {
    map t | t in trees && LiveTree(nodes, t) :: trees[t]
  }

  // ---------------------------------------------------------------- what the collector sees

  /** A walk down from the root of some node comes to the directory within `levels` levels. */
  ghost predicate SeenFromRoots(view: TreeTable, nodes: NodeTable, t: TreeHash, levels: nat) {
    exists id :: id in nodes && nodes[id].root.Some? && Reaches(view, nodes[id].root.value, t, levels)
  }

  ghost predicate Reached(view: TreeTable, nodes: NodeTable, t: TreeHash) {
    exists levels: nat :: SeenFromRoots(view, nodes, t, levels)
  }

  /** No walk from a root is longer than the collector goes. */
  ghost predicate ShallowIn(view: TreeTable, nodes: NodeTable) {
    forall id | id in nodes && nodes[id].root.Some? :: WithinView(view, nodes[id].root.value, LEVELS)
  }

  /** Every directory of every root reads as itself. */
  ghost predicate RightRoots(view: TreeTable, nodes: NodeTable) {
    forall id | id in nodes && nodes[id].root.Some? :: RightTree(view, nodes[id].root.value)
  }

  /** Every row can be read, and so can everything seen from it. */
  ghost predicate Covers(view: TreeTable, trees: TreeTable) {
    Closed(view) && forall t | t in trees :: t in view
  }

  /**
   * The rows that are left: old ones, seen from some surviving root within the depth limit, with every
   * surviving root itself; if no walk is longer than the limit, they are exactly the rows that are seen.
   */
  ghost predicate TreesCollected(view: TreeTable, before: TreeTable, after: TreeTable, nodes: NodeTable) {
    && (forall t {:trigger KeptRow(view, before, after, nodes, t)} | t in after :: KeptRow(view, before, after, nodes, t))
    && (forall id {:trigger RootKept(before, after, nodes, id)} | id in nodes :: RootKept(before, after, nodes, id))
    && (ShallowIn(view, nodes) ==> forall t | t in before && Reached(view, nodes, t) :: t in after)
  }

  ghost predicate KeptRow(view: TreeTable, before: TreeTable, after: TreeTable, nodes: NodeTable, t: TreeHash) {
    t in before && t in after && after[t] == before[t] && SeenFromRoots(view, nodes, t, LEVELS)
  }

  ghost predicate RootKept(before: TreeTable, after: TreeTable, nodes: NodeTable, id: Id)
    requires id in nodes
  {
    nodes[id].root.Some? && nodes[id].root.value in before ==> nodes[id].root.value in after
  }

  /** Where every root reads right, the collector sees the live directories. */
  lemma RightRootsSeen(view: TreeTable, nodes: NodeTable)
    requires RightRoots(view, nodes)
    ensures forall t, levels: nat :: SeenFromRoots(view, nodes, t, levels) <==> InSomeRoot(nodes, t, levels)
    ensures ShallowIn(view, nodes) <==> Shallow(nodes)
  {
    forall t, levels: nat ensures SeenFromRoots(view, nodes, t, levels) <==> InSomeRoot(nodes, t, levels) {
      forall id | id in nodes && nodes[id].root.Some?
        ensures Reaches(view, nodes[id].root.value, t, levels) <==> Contains(nodes[id].root.value, t, levels)
      {
        ReachesIsContains(view, nodes[id].root.value, t, levels);
      }
    }
    forall id | id in nodes && nodes[id].root.Some?
      ensures WithinView(view, nodes[id].root.value, LEVELS) <==> WithinLevels(nodes[id].root.value, LEVELS)
    {
      WithinViewIsWithinLevels(view, nodes[id].root.value, LEVELS);
    }
  }

  lemma LiveIsStored(nodes: NodeTable, trees: TreeTable, t: TreeHash)
    requires Closed(trees) && ContentAddressed(trees) && RootsStored(nodes, trees) && LiveTree(nodes, t)
    ensures t in trees
  {
    var levels: nat :| InSomeRoot(nodes, t, levels);
    var id :| id in nodes && nodes[id].root.Some? && Contains(nodes[id].root.value, t, levels);
    ContainedIsStored(trees, nodes[id].root.value, t, levels);
  }

  /** Where every root reads right and none is too deep, collection leaves exactly the live trees. */
  lemma CollectedExactly(view: TreeTable, before: TreeTable, after: TreeTable, nodes: NodeTable)
    requires TreesCollected(view, before, after, nodes) && RightRoots(view, nodes) && Shallow(nodes)
    ensures after == CollectTrees(nodes, before)
  {
    RightRootsSeen(view, nodes);
    forall t | t in after ensures t in before && after[t] == before[t] {
      assert KeptRow(view, before, after, nodes, t);
    }
    forall t | t in before ensures t in after <==> LiveTree(nodes, t) {
      LiveIsReached(view, nodes, t);
      if t in after { assert KeptRow(view, before, after, nodes, t) && InSomeRoot(nodes, t, LEVELS); }
    }
  }

  lemma LiveIsReached(view: TreeTable, nodes: NodeTable, t: TreeHash)
    requires RightRoots(view, nodes)
    ensures LiveTree(nodes, t) <==> Reached(view, nodes, t)
  {
    RightRootsSeen(view, nodes);
    if LiveTree(nodes, t) {
      var levels: nat :| InSomeRoot(nodes, t, levels);
      assert SeenFromRoots(view, nodes, t, levels);
    }
    if Reached(view, nodes, t) {
      var levels: nat :| SeenFromRoots(view, nodes, t, levels);
      assert InSomeRoot(nodes, t, levels);
    }
  }

  /** As long as no walk is too long, every live directory stays if and only if the collector sees every one. */
  lemma LiveTreesStayExactlyWhen(view: TreeTable, before: TreeTable, after: TreeTable, nodes: NodeTable)
    requires TreesCollected(view, before, after, nodes) && ShallowIn(view, nodes)
    requires Closed(before) && ContentAddressed(before) && RootsStored(nodes, before)
    ensures (forall t | LiveTree(nodes, t) :: t in after) <==> (forall t | LiveTree(nodes, t) :: Reached(view, nodes, t))
  {
    forall t | LiveTree(nodes, t) ensures t in after <==> Reached(view, nodes, t) {
      LiveIsStored(nodes, before, t);
      if t in after { assert KeptRow(view, before, after, nodes, t); }
    }
  }

  /** A tree can be read from the rows down to every level exactly when all its directories are there. */
  lemma ReadableExactlyWhen(trees: TreeTable, h: TreeHash)
    requires ContentAddressed(trees)
    ensures Readable(trees, h) <==> RightTree(trees, h)
  {
    if Readable(trees, h) {
      forall t | Inside(h, t) ensures t in trees {
        var levels: nat :| Contains(h, t, levels);
        assert StoredTo(trees, h, levels);
        StoredContains(trees, h, t, levels);
      }
    }
    if RightTree(trees, h) {
      forall levels: nat ensures StoredTo(trees, h, levels) {
        RightTreeTo(trees, h, levels);
        RightIsStored(trees, h, levels);
      }
    }
  }

  ghost predicate Readable(trees: TreeTable, h: TreeHash) {
    forall levels: nat :: StoredTo(trees, h, levels)
  }

  lemma {:induction false} StoredContains(trees: TreeTable, h: TreeHash, t: TreeHash, levels: nat)
    requires ContentAddressed(trees) && StoredTo(trees, h, levels) && Contains(h, t, levels)
    ensures t in trees
    decreases levels
  {
    if h != t {
      var n :| n in h.entries && h.entries[n].Tree? && Contains(h.entries[n].tree, t, levels - 1);
      assert IsTree(Get(trees[h], n));
      StoredContains(trees, h.entries[n].tree, t, levels - 1);
    }
  }

  lemma {:induction false} RightIsStored(view: TreeTable, h: TreeHash, levels: nat)
    requires RightTo(view, h, levels)
    ensures StoredTo(view, h, levels)
    decreases levels
  {
    if levels > 0 {
      forall n | IsTree(Get(view[h], n)) ensures StoredTo(view, view[h][n].tree, levels - 1) {
        RightIsStored(view, h.entries[n].tree, levels - 1);
      }
    }
  }

  // ---------------------------------------------------------------- marked sets

  ghost predicate ClosedUp(nodes: NodeTable, marked: set<Id>, current: Option<Id>) {
    forall id | id in marked && id in nodes && nodes[id].parent.Some? ::
      nodes[id].parent.value in marked || nodes[id].parent == current
  }

  lemma ClosedUpStep(nodes: NodeTable, marked: set<Id>, id: Id)
    requires ClosedUp(nodes, marked, Some(id)) && id in nodes
    ensures ClosedUp(nodes, marked + {id}, nodes[id].parent)
  {
  }

  /** A set that holds the heads and is closed under parents holds every live node. */
  lemma {:induction false} AncestorsMarked(nodes: NodeTable, marked: set<Id>, id: Option<Id>, k: nat)
    requires ClosedUp(nodes, marked, None) && (id.Some? ==> id.value in marked)
    ensures Nth(nodes, id, k).Some? ==> Nth(nodes, id, k).value in marked
    decreases k
  {
    if k > 0 && id.Some? && id.value in nodes {
      AncestorsMarked(nodes, marked, nodes[id.value].parent, k - 1);
    }
  }

  lemma LiveMarked(g: Graph, marked: set<Id>)
    requires ClosedUp(g.nodes, marked, None) && Heads(g) <= marked
    ensures forall id | Live(g, id) :: id in marked
  {
    forall id | Live(g, id) ensures id in marked {
      var h :| h in Heads(g) && IsAncestor(g.nodes, id, h);
      var k: nat :| Nth(g.nodes, Some(h), k) == Some(id);
      AncestorsMarked(g.nodes, marked, Some(h), k);
    }
  }

  /** A set of directories closed under what is seen from them holds everything a walk from a member comes to. */
  lemma {:induction false} SeenMarked(view: TreeTable, marked: set<TreeHash>, h: TreeHash, t: TreeHash, levels: nat)
    requires Expanded(view, marked, marked) && h in marked && Reaches(view, h, t, levels)
    ensures t in marked
    decreases levels
  {
    if h != t {
      var n :| IsTree(Get(DirIn(view, h), n)) && Reaches(view, DirIn(view, h)[n].tree, t, levels - 1);
      assert ChildrenIn(view, h, DirIn(view, h).Keys, marked);
      SeenMarked(view, marked, DirIn(view, h)[n].tree, t, levels - 1);
    }
  }

  // ---------------------------------------------------------------- views that agree

  /** Both views show the same in every directory that a walk from `h` comes to. */
  ghost predicate AgreesFrom(view: TreeTable, view': TreeTable, h: TreeHash) {
    forall t, levels: nat | Reaches(view, h, t, levels) :: DirIn(view', t) == DirIn(view, t)
  }

  ghost predicate SameFrom(view: TreeTable, view': TreeTable, h: TreeHash, levels: nat) {
    && (WithinView(view', h, levels) <==> WithinView(view, h, levels))
    && forall t :: Reaches(view', h, t, levels) <==> Reaches(view, h, t, levels)
  }

  lemma {:induction false} SameWalks(view: TreeTable, view': TreeTable, h: TreeHash, levels: nat)
    requires AgreesFrom(view, view', h)
    ensures SameFrom(view, view', h, levels)
    decreases levels
  {
    assert Reaches(view, h, h, 1);
    if levels > 0 {
      forall n | IsTree(Get(DirIn(view, h), n))
        ensures SameFrom(view, view', DirIn(view, h)[n].tree, levels - 1)
      {
        var sub := DirIn(view, h)[n].tree;
        forall t, l: nat | Reaches(view, sub, t, l) ensures DirIn(view', t) == DirIn(view, t) {
          ReachesChild(view, h, n, t, l + 1);
        }
        SameWalks(view, view', sub, levels - 1);
      }
    }
  }

  lemma CollectedRows(view: TreeTable, before: TreeTable, after: TreeTable, nodes: NodeTable)
    requires TreesCollected(view, before, after, nodes)
    ensures forall t | t in after :: t in before && after[t] == before[t]
    ensures forall id | id in nodes && nodes[id].root.Some? && nodes[id].root.value in before :: nodes[id].root.value in after
  {
    forall t | t in after ensures t in before && after[t] == before[t] {
      assert KeptRow(view, before, after, nodes, t);
    }
    forall id | id in nodes && nodes[id].root.Some? && nodes[id].root.value in before ensures nodes[id].root.value in after {
      assert RootKept(before, after, nodes, id);
    }
  }

  lemma NothingCollected(view: TreeTable, before: TreeTable, after: TreeTable, nodes: NodeTable)
    requires TreesCollected(view, before, after, nodes) && ShallowIn(view, nodes)
    requires forall t | t in before :: Reached(view, nodes, t)
    ensures after == before
  {
    forall t | t in after ensures t in before && after[t] == before[t] {
      assert KeptRow(view, before, after, nodes, t);
    }
  }

  /** A table that has been collected through itself shows the collector the same again. */
  lemma CollectedView(view: TreeTable, after: TreeTable, nodes: NodeTable)
    requires TreesCollected(view, view, after, nodes) && ShallowIn(view, nodes) && Closed(view) && RootsStored(nodes, view)
    ensures Closed(after) && ShallowIn(after, nodes)
    ensures forall t | t in after :: Reached(after, nodes, t)
  {
    forall id | id in nodes && nodes[id].root.Some?
      ensures SameFrom(view, after, nodes[id].root.value, LEVELS)
    {
      CollectedAgrees(view, after, nodes, id);
      SameWalks(view, after, nodes[id].root.value, LEVELS);
    }
    forall t | t in after
      ensures Reached(after, nodes, t)
      ensures forall n | IsTree(Get(after[t], n)) :: after[t][n].tree in after
    {
      assert KeptRow(view, view, after, nodes, t);
      var id :| id in nodes && nodes[id].root.Some? && Reaches(view, nodes[id].root.value, t, LEVELS);
      assert SameFrom(view, after, nodes[id].root.value, LEVELS);
      assert SeenFromRoots(after, nodes, t, LEVELS);
      forall n | IsTree(Get(after[t], n)) ensures after[t][n].tree in after {
        SeenChildStays(view, after, nodes, id, t, n);
      }
    }
  }

  lemma CollectedAgrees(view: TreeTable, after: TreeTable, nodes: NodeTable, id: Id)
    requires TreesCollected(view, view, after, nodes) && ShallowIn(view, nodes) && Closed(view) && RootsStored(nodes, view)
    requires id in nodes && nodes[id].root.Some?
    ensures AgreesFrom(view, after, nodes[id].root.value)
  {
    var root := nodes[id].root.value;
    forall t, levels: nat | Reaches(view, root, t, levels) ensures DirIn(after, t) == DirIn(view, t) {
      ReachedIsStored(view, root, t, levels);
      assert SeenFromRoots(view, nodes, t, levels);
      assert KeptRow(view, view, after, nodes, t);
    }
  }

  lemma SeenChildStays(view: TreeTable, after: TreeTable, nodes: NodeTable, id: Id, t: TreeHash, n: Name)
    requires TreesCollected(view, view, after, nodes) && ShallowIn(view, nodes) && Closed(view)
    requires id in nodes && nodes[id].root.Some? && Reaches(view, nodes[id].root.value, t, LEVELS)
    requires t in view && IsTree(Get(view[t], n))
    ensures view[t][n].tree in after
  {
    ReachesStep(view, nodes[id].root.value, t, LEVELS, n);
    assert SeenFromRoots(view, nodes, view[t][n].tree, LEVELS + 1);
  }

  // ---------------------------------------------------------------- what survives

  lemma {:induction false} ContainsMore(h: TreeHash, t: TreeHash, levels: nat, more: nat)
    requires Contains(h, t, levels) && levels <= more
    ensures Contains(h, t, more)
    decreases levels
  {
    if h != t {
      var n :| n in h.entries && h.entries[n].Tree? && Contains(h.entries[n].tree, t, levels - 1);
      ContainsMore(h.entries[n].tree, t, levels - 1, more - 1);
    }
  }

  lemma {:induction false} ContainsTrans(h: TreeHash, t: TreeHash, i: nat, n: Name)
    requires Contains(h, t, i) && IsTree(Get(t.entries, n))
    ensures Contains(h, t.entries[n].tree, i + 1)
    decreases i
  {
    if h == t {
      assert Contains(h.entries[n].tree, t.entries[n].tree, i);
    } else {
      var m :| m in h.entries && h.entries[m].Tree? && Contains(h.entries[m].tree, t, i - 1);
      ContainsTrans(h.entries[m].tree, t, i - 1, n);
    }
  }

  /** The collected table is still closed and still holds every surviving root. */
  lemma CollectedTreesClosed(nodes: NodeTable, trees: TreeTable)
    requires Closed(trees) && ContentAddressed(trees) && RootsStored(nodes, trees)
    ensures var kept := CollectTrees(nodes, trees); Closed(kept) && ContentAddressed(kept) && RootsStored(nodes, kept)
  {
    var kept := CollectTrees(nodes, trees);
    forall t, n | t in kept && IsTree(Get(t.entries, n))
      ensures t.entries[n].tree in kept
    {
      var levels: nat :| InSomeRoot(nodes, t, levels);
      var id :| id in nodes && nodes[id].root.Some? && Contains(nodes[id].root.value, t, levels);
      ContainsTrans(nodes[id].root.value, t, levels, n);
      assert InSomeRoot(nodes, t.entries[n].tree, levels + 1);
    }
    forall id | id in nodes && nodes[id].root.Some?
      ensures nodes[id].root.value in kept
    {
      assert Contains(nodes[id].root.value, nodes[id].root.value, 1);
      assert InSomeRoot(nodes, nodes[id].root.value, 1);
    }
  }

  /** Every surviving commit keeps its row and its history. */
  lemma SurvivorsIntact(g: Graph, now: int, id: Id, limit: nat)
    requires Sound(g) && id in Collect(g, now).nodes
    ensures var nodes := Collect(g, now).nodes;
            nodes[id] == g.nodes[id] && Line(nodes, Some(id), limit) == Line(g.nodes, Some(id), limit)
  {
    HistoryStable(g, DoCollect(now), id, limit);
  }

  /**
   * The tree of a surviving commit can still be read from the rows if and only if the collector saw every
   * directory of it, and so in particular if the roots read right.
   */
  lemma SurvivorReadableExactlyWhen(view: TreeTable, before: TreeTable, after: TreeTable, nodes: NodeTable, id: Id)
    requires TreesCollected(view, before, after, nodes) && ShallowIn(view, nodes)
    requires Closed(before) && ContentAddressed(before) && RootsStored(nodes, before)
    requires id in nodes && nodes[id].root.Some?
    ensures Readable(after, nodes[id].root.value) <==> forall t | Inside(nodes[id].root.value, t) :: Reached(view, nodes, t)
    ensures RightRoots(view, nodes) ==> Readable(after, nodes[id].root.value)
  {
    var root := nodes[id].root.value;
    CollectedRows(view, before, after, nodes);
    ReadableExactlyWhen(after, root);
    forall t | Inside(root, t)
      ensures t in after <==> Reached(view, nodes, t)
      ensures RightRoots(view, nodes) ==> Reached(view, nodes, t)
    {
      var levels: nat :| Contains(root, t, levels);
      assert InSomeRoot(nodes, t, levels);
      LiveIsStored(nodes, before, t);
      if t in after { assert KeptRow(view, before, after, nodes, t); }
      if RightRoots(view, nodes) { LiveIsReached(view, nodes, t); }
    }
  }

  /** A branch goes exactly when it is ephemeral and more than an hour old; a surviving one keeps its head. */
  lemma BranchesSurvive(g: Graph, now: int, b: RefName)
    requires Sound(g) && b in g.branches
    ensures b in Collect(g, now).branches <==> !(g.branches[b].ephemeral && g.branches[b].createdAt < now - 60 * 60 * 1000)
    ensures b in Collect(g, now).branches ==>
              && Collect(g, now).branches[b] == g.branches[b]
              && ResolveRef(Collect(g, now), b) == ResolveRef(g, b)
              && Points(Collect(g, now).nodes, ResolveRef(g, b))
  {
    CollectSound(g, now);
  }

  /** Collection touches branches and commits only: tags, stashes and the log stay, and no branch changes. */
  lemma CollectKeepsRefs(g: Graph, now: int)
    ensures var g' := Collect(g, now);
            && g'.tags == g.tags && g'.stashes == g.stashes && g'.reflog == g.reflog
            && (forall b | b in g'.branches :: b in g.branches && g'.branches[b] == g.branches[b])
            && forall id | id in g'.nodes :: id in g.nodes && g'.nodes[id] == g.nodes[id]
  {
  }

  /** Whatever its age, a branch that is not ephemeral keeps its head and its whole history. */
  lemma OrdinaryBranchSurvives(g: Graph, now: int, b: RefName, limit: nat)
    requires Sound(g) && b in g.branches && !g.branches[b].ephemeral
    ensures var g' := Next(g, DoCollect(now));
            && b in g'.branches && g'.branches[b] == g.branches[b]
            && Line(g'.nodes, ResolveRef(g', b), limit) == Line(g.nodes, ResolveRef(g, b), limit)
  {
    BranchesSurvive(g, now, b);
    var head := g.branches[b].head;
    if head.Some? {
      HistoryStable(g, DoCollect(now), head.value, limit);
    }
  }

  /** A surviving ref from which the commit can be reached by following parents. */
  ghost predicate Needed(g: Graph, now: int, id: Id) {
    || (exists b :: b in g.branches && !(g.branches[b].ephemeral && g.branches[b].createdAt < now - 60 * 60 * 1000)
                    && g.branches[b].head.Some? && IsAncestor(g.nodes, id, g.branches[b].head.value))
    || (exists t :: t in g.tags && IsAncestor(g.nodes, id, g.tags[t]))
    || (exists s :: s in g.stashes && IsAncestor(g.nodes, id, g.stashes[s]))
    || (exists i :: 0 <= i < |g.reflog| && IsAncestor(g.nodes, id, g.reflog[i].newHead))
    || (exists i :: 0 <= i < |g.reflog| && g.reflog[i].oldHead.Some? && IsAncestor(g.nodes, id, g.reflog[i].oldHead.value))
  }

  /** A commit stays exactly when a surviving branch, a tag, a stash or either side of the log needs it. */
  lemma CommitSurvivesExactlyWhen(g: Graph, now: int, id: Id)
    ensures id in Collect(g, now).nodes <==> id in g.nodes && Needed(g, now, id)
    ensures id in Collect(g, now).nodes ==> Collect(g, now).nodes[id] == g.nodes[id]
  {
    var kept := g.(branches := Unexpired(g.branches, now));
    if Live(kept, id) {
      var h :| h in Heads(kept) && IsAncestor(kept.nodes, id, h);
      if h in g.tags.Values {
        var t :| t in g.tags && g.tags[t] == h;
      } else if h in g.stashes.Values {
        var s :| s in g.stashes && g.stashes[s] == h;
      }
    }
    if Needed(g, now, id) {
      if b :| b in g.branches && !(g.branches[b].ephemeral && g.branches[b].createdAt < now - 60 * 60 * 1000)
              && g.branches[b].head.Some? && IsAncestor(g.nodes, id, g.branches[b].head.value) {
        assert b in kept.branches && g.branches[b].head.value in Heads(kept);
      } else if t :| t in g.tags && IsAncestor(g.nodes, id, g.tags[t]) {
        assert g.tags[t] in Heads(kept);
      } else if s :| s in g.stashes && IsAncestor(g.nodes, id, g.stashes[s]) {
        assert g.stashes[s] in Heads(kept);
      } else if i :| 0 <= i < |g.reflog| && IsAncestor(g.nodes, id, g.reflog[i].newHead) {
        assert g.reflog[i].newHead in Heads(kept);
      }
    }
  }

  /** Reachability from the same heads is the same in the collected graph. */
  lemma LiveStays(g: Graph, now: int, id: Id)
    requires Sound(g) && id in Collect(g, now).nodes
    ensures Live(Collect(g, now), id)
  {
    var kept, c := g.(branches := Unexpired(g.branches, now)), Collect(g, now);
    CollectSound(g, now);
    var h :| h in Heads(kept) && IsAncestor(kept.nodes, id, h);
    HeadLives(kept, h);
    SameAncestor(c.nodes, g.nodes, id, h);
    assert Heads(kept) == Heads(c);
  }

  lemma SameAncestor(sub: NodeTable, all: NodeTable, a: Id, id: Id)
    requires SubGraph(sub, all) && id in sub && IsAncestor(all, a, id)
    ensures IsAncestor(sub, a, id)
  {
    var k: nat :| Nth(all, Some(id), k) == Some(a);
    SameNth(sub, all, Some(id), k);
  }

  /** A second collection at the same time removes no branch, no commit and no live tree. */
  lemma CollectTwice(g: Graph, trees: TreeTable, now: int)
    requires Sound(g)
    ensures Collect(Collect(g, now), now) == Collect(g, now)
    ensures var nodes := Collect(g, now).nodes;
            CollectTrees(nodes, CollectTrees(nodes, trees)) == CollectTrees(nodes, trees)
  {
    var c := Collect(g, now);
    assert Unexpired(c.branches, now) == c.branches;
    var again := c.(branches := Unexpired(c.branches, now));
    assert again == c;
    forall id | id in c.nodes ensures Live(again, id) {
      LiveStays(g, now, id);
    }
    assert Collect(c, now).nodes == c.nodes;
  }

  // ---------------------------------------------------------------- the depth limit

  /** A directory that holds one directory, and so on, `d` times. */
  function Chain(d: nat): TreeHash {
    if d == 0 then Digest(map[]) else Digest(map["d" := Tree(Chain(d - 1))])
  }

  lemma {:induction false} ChainContains(d: nat, levels: nat)
    ensures Contains(Chain(d), Chain(0), levels) <==> levels > d
    decreases d
  {
    if d > 0 && levels > 0 {
      ChainContains(d - 1, levels - 1);
      assert "d" in Chain(d).entries && Chain(d).entries["d"].Tree?;
      assert Chain(d) != Chain(0) by { assert "d" !in Chain(0).entries; }
      assert forall n | n in Chain(d).entries :: Chain(d).entries[n].tree == Chain(d - 1);
    }
  }

  /**
   * Beyond the depth limit collection loses live trees: with a tree of more than 101 levels as the only
   * root, the innermost directory is live but no walk of 101 levels reaches it.
   */
  lemma DeepTreeIsMissed(nodes: NodeTable, id: Id, d: nat)
    requires d >= LEVELS && nodes == map[id := Node(None, Some(Chain(d)))]
    ensures LiveTree(nodes, Chain(0)) && !InSomeRoot(nodes, Chain(0), LEVELS)
  {
    ChainContains(d, LEVELS);
    ChainContains(d, d + 1);
    assert nodes[id].root.Some?;
    assert InSomeRoot(nodes, Chain(0), d + 1);
  }
}
