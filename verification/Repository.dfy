/**
 * The repository object: its tables, the operations that change them, and the read-only searches over
 * the commit graph.  The operations are proved to carry out the functions of `CommitGraph` and
 * `GarbageCollection`.  Node ids are fresh UUIDs supplied by the caller, the clock is a parameter.
 */
module Repository {
  import opened Wrappers
  import opened Arithmetic
  import opened Paths
  import opened MerkleTrees
  import opened TreeMerge
  import opened TreeViews
  import opened TreeStorage
  import opened CommitGraph
  import opened GarbageCollection

  datatype GcReport = GcReport(prunedNodes: int, prunedTrees: int, vaporizedBranches: int)

  /** The method succeeded and produced the wanted tables, or failed as wanted and changed nothing. */
  ghost predicate CarriedOut(r: Result<()>, want: Result<Graph>, before: Graph, after: Graph) {
    match want
    case Success(g) => r.Success? && after == g
    case Failure(e) => r == Failure(e) && after == before
  }

  class Repository {
    var nodes: NodeTable
    var branches: map<RefName, Branch>
    var tags: map<RefName, Id>
    var stashes: map<string, Id>
    var reflog: seq<LogEntry>
    const store: TreeStore

    ghost function Tables(): Graph
      reads this
    {
      Graph(nodes, branches, tags, stashes, reflog)
    }

    ghost predicate Valid()
      reads this, store
    {
      && Sound(Tables())
      && store.Valid() && Closed(store.trees) && RootsStored(nodes, store.trees)
    }

    constructor ()
      ensures Valid() && Tables() == EMPTY && store.trees == map[] && fresh(store)
    {
      nodes, branches, tags, stashes, reflog := map[], map[], map[], map[], [];
      store := new TreeStore();
      new;
      EmptySound();
    }

    // -------------------------------------------------------------- refs and branches

    method ResolveRef(ref: RefName) returns (r: Result<Id>)
      ensures r == var id := CommitGraph.ResolveRef(Tables(), ref); if id.Some? then Success(id.value) else Failure(RefNotFound)
    {
      var targetId := None;
      if ref in branches { targetId := branches[ref].head; }
      else if ref in tags { targetId := Some(tags[ref]); }
      else if ref in nodes { targetId := Some(ref); }
      r := if targetId.None? then Failure(RefNotFound) else Success(targetId.value);
    }

    method CreateBranch(name: RefName, from: Option<RefName>, ephemeral: bool, now: int) returns (r: Result<()>)
      requires Valid()
      modifies this
      ensures Valid()
      ensures CarriedOut(r, CommitGraph.CreateBranch(old(Tables()), name, from, ephemeral, now), old(Tables()), Tables())
    {
      ghost var before := Tables();
      var head := None;
      if from.Some? {
        var id :- ResolveRef(from.value);
        head := Some(id);
      }
      branches := branches[name := Branch(head, ephemeral, now)];
      NextSound(before, DoCreateBranch(name, from, ephemeral, now));
      r := Success(());
    }

    method DeleteBranch(name: RefName) returns (r: Result<()>)
      requires Valid()
      modifies this
      ensures Valid()
      ensures CarriedOut(r, CommitGraph.DeleteBranch(old(Tables()), name), old(Tables()), Tables())
    {
      if name == "main" || name == "master" {
        return Failure(ProtectedBranch);
      }
      ghost var before := Tables();
      branches := branches - {name};
      NextSound(before, DoDeleteBranch(name));
      r := Success(());
    }

    // -------------------------------------------------------------- commit and reset

    /** A commit; the tree it names, if any, has been written before. */
    method CommitInTransaction(branch: RefName, nodeId: Id, root: Option<TreeHash>, logged: bool) returns (r: Result<()>)
      requires Valid() && (root.Some? ==> root.value in store.trees)
      modifies this
      ensures Valid()
      ensures CarriedOut(r, Commit(old(Tables()), branch, nodeId, root, logged), old(Tables()), Tables())
    {
      ghost var before := Tables();
      if branch !in branches {
        return Failure(BranchNotFound);
      }
      var parentId := branches[branch].head;
      if nodeId in nodes {
        return Failure(DuplicateId);
      }
      nodes := nodes[nodeId := Node(parentId, root)];
      branches := branches[branch := branches[branch].(head := Some(nodeId))];
      if logged {
        reflog := reflog + [LogEntry(None, nodeId)];
      }
      CommitSound(before, branch, nodeId, root, logged);
      r := Success(());
    }

    method Reset(branch: RefName, targetRef: RefName, soft: Option<Id>) returns (r: Result<()>)
      requires Valid()
      modifies this
      ensures Valid()
      ensures CarriedOut(r, CommitGraph.Reset(old(Tables()), branch, targetRef, soft), old(Tables()), Tables())
    {
      ghost var before := Tables();
      var targetNodeId :- ResolveRef(targetRef);
      var branchHeadId :- ResolveRef(branch);
      var finalNodeId := targetNodeId;
      if soft.Some? {
        if soft.value in nodes {
          return Failure(DuplicateId);
        }
        nodes := nodes[soft.value := Node(Some(branchHeadId), None)];
        finalNodeId := soft.value;
      }
      if branch in branches {
        branches := branches[branch := branches[branch].(head := Some(finalNodeId))];
      }
      reflog := reflog + [LogEntry(Some(branchHeadId), finalNodeId)];
      ResetSound(before, branch, targetRef, soft);
      r := Success(());
    }

    // -------------------------------------------------------------- tags and stashes

    method TagRef(name: RefName, ref: RefName) returns (r: Result<()>)
      requires Valid()
      modifies this
      ensures Valid()
      ensures CarriedOut(r, CommitGraph.TagRef(old(Tables()), name, ref), old(Tables()), Tables())
    {
      ghost var before := Tables();
      var head :- ResolveRef(ref);
      tags := tags[name := head];
      NextSound(before, DoTag(name, ref));
      r := Success(());
    }

    method DeleteTag(name: RefName) returns (r: Result<()>)
      requires Valid()
      modifies this
      ensures Valid()
      ensures CarriedOut(r, CommitGraph.DeleteTag(old(Tables()), name), old(Tables()), Tables())
    {
      ghost var before := Tables();
      tags := tags - {name};
      NextSound(before, DoDeleteTag(name));
      r := Success(());
    }

    method Stash(stashId: string, branch: RefName) returns (r: Result<()>)
      requires Valid()
      modifies this
      ensures Valid()
      ensures CarriedOut(r, CommitGraph.Stash(old(Tables()), stashId, branch), old(Tables()), Tables())
    {
      ghost var before := Tables();
      var node := ResolveRef(branch);
      if node.Failure? {
        return Failure(EmptyBranch);
      }
      if stashId in stashes {
        return Failure(DuplicateId);
      }
      stashes := stashes[stashId := node.value];
      NextSound(before, DoStash(stashId, branch));
      r := Success(());
    }

    // -------------------------------------------------------------- history and searches

    /** A node and its nearest ancestors, newest first. */
    method History(ref: RefName, limit: nat) returns (r: Result<seq<Id>>)
      requires Valid()
      ensures r == var head := CommitGraph.ResolveRef(Tables(), ref);
                   if head.None? then Failure(RefNotFound) else Success(Line(nodes, head, limit))
    {
      var headId :- ResolveRef(ref);
      var result := WalkLine(headId, limit);
      r := Success(result);
    }

    /** The loop of `history`. */
    method WalkLine(headId: Id, limit: nat) returns (result: seq<Id>)
      requires Acyclic(nodes) && headId in nodes
      ensures result == Line(nodes, Some(headId), limit)
    {
      result := [];
      var currentId := Some(headId);
      while currentId.Some? && |result| < limit
        invariant |result| <= limit && Points(nodes, currentId)
        invariant Line(nodes, Some(headId), limit) == result + Line(nodes, currentId, limit - |result|)
        decreases limit - |result|
      {
        assert result + ([currentId.value] + Line(nodes, nodes[currentId.value].parent, limit - |result| - 1))
            == (result + [currentId.value]) + Line(nodes, nodes[currentId.value].parent, limit - |result| - 1);
        result := result + [currentId.value];
        currentId := nodes[currentId.value].parent;
      }
      assert Line(nodes, currentId, limit - |result|) == [];
      assert result + [] == result;
    }

    /** The first loop of `findLCA`: a node and its ancestors, stopping once there are more than `bound`. */
    method NearAncestors(a: Id, bound: nat) returns (ancestorsA: set<Id>)
      requires Acyclic(nodes) && a in nodes
      ensures ancestorsA == Near(nodes, a, bound)
    {
      ghost var born :| Ranked(nodes, born);
      ancestorsA := {};
      var currA := Some(a);
      while currA.Some?
        invariant |ancestorsA| <= bound && currA == Nth(nodes, Some(a), |ancestorsA|)
        invariant ancestorsA == SetOf(Line(nodes, Some(a), |ancestorsA|))
        invariant currA.Some? ==> Older(nodes, born, currA.value, ancestorsA)
        decreases bound + 1 - |ancestorsA|
      {
        NearStep(nodes, born, a, currA.value, ancestorsA);
        ancestorsA := ancestorsA + {currA.value};
        currA := nodes[currA.value].parent;
        if |ancestorsA| > bound {
          return;
        }
      }
      LineStops(nodes, Some(a), |ancestorsA|, bound + 1);
    }

    /**
     * The common ancestor nearest to `b` among `a` and its nearest ancestors, more than `bound` of them
     * if there are so many; nothing exactly when none of those is an ancestor of `b`.
     */
    method FindLCA(a: Id, b: Id, bound: nat := 1000) returns (r: Option<Id>)
      requires Valid() && a in nodes && b in nodes
      ensures r.None? ==> forall x | x in Near(nodes, a, bound) :: !IsAncestor(nodes, x, b)
      ensures r.Some? ==> exists k: nat :: NearestFrom(nodes, Near(nodes, a, bound), b, r.value, k)
    {
      ghost var born :| Ranked(nodes, born);
      var ancestorsA := NearAncestors(a, bound);
      var currB := Some(b);
      ghost var k: nat := 0;
      while currB.Some?
        invariant Points(nodes, currB) && currB == Nth(nodes, Some(b), k)
        invariant NoneBefore(nodes, ancestorsA, b, k)
        decreases if currB.Some? then born[currB.value] + 1 else 0
      {
        if currB.value in ancestorsA {
          assert NearestFrom(nodes, ancestorsA, b, currB.value, k);
          return currB;
        }
        NthAdd(nodes, Some(b), k, 1);
        currB := nodes[currB.value].parent;
        k := k + 1;
      }
      NoneAtAll(nodes, ancestorsA, b, k);
      r := None;
    }

    /**
     * The flat tree of a commit as `reader` sees it: its flattened root, or what its flat columns give when
     * it has none.
     */
    method ResolveTree(id: Id, flat: Id -> FlatTree, reader: TreeStore) returns (tree: FlatTree)
      requires Valid() && Covers(reader.trees, store.trees) && id in nodes
      ensures tree == TreeOf(reader.trees, nodes, flat, id)
    {
      if nodes[id].root.None? {
        return flat(id);
      }
      ClosedIsStored(reader.trees, nodes[id].root.value, LEVELS);
      var r := reader.Flatten(nodes[id].root.value);
      tree := r.value;
    }

    /** The oldest commit of the newest run of commits that show the file with its present content. */
    method Blame(branch: RefName, path: Path, flat: Id -> FlatTree, reader: TreeStore) returns (r: Result<Id>)
      requires Valid() && Covers(reader.trees, store.trees)
      ensures var head, files := CommitGraph.ResolveRef(Tables(), branch), FilesAt(reader.trees, nodes, flat, path);
              if head.None? then r == Failure(RefNotFound)
              else if files(head.value).None? then r == Failure(FileNotFound)
              else var line := Line(nodes, head, 100);
                   r.Success? && exists i: nat :: IntroducedAt(files, line, i) && r.value == line[i]
    {
      ghost var files := FilesAt(reader.trees, nodes, flat, path);
      var commits :- History(branch, 100);
      for i := 0 to |commits|
        invariant forall j | 0 <= j < i :: files(commits[j]).Some?
        invariant forall j | 0 <= j <= i && j < |commits| :: files(commits[j]) == files(commits[0])
        invariant i == |commits| ==> commits == []
      {
        InLine(nodes, CommitGraph.ResolveRef(Tables(), branch), 100, i);
        var tree := ResolveTree(commits[i], flat, reader);
        if path !in tree {
          if i > 0 {
            // The source returns the commit before here, but the comparison below has returned earlier.
            assert false;
          }
          break;
        }
        if i < |commits| - 1 {
          InLine(nodes, CommitGraph.ResolveRef(Tables(), branch), 100, i + 1);
          var prevTree := ResolveTree(commits[i + 1], flat, reader);
          if Look(tree, path) != Look(prevTree, path) {
            assert IntroducedAt(files, commits, i);
            return Success(commits[i]);
          }
        } else {
          assert IntroducedAt(files, commits, i);
          return Success(commits[i]);
        }
      }
      r := Failure(FileNotFound);
    }

    /** Binary search for a bad commit; `tests` counts the calls of the test. */
    method Bisect(badRef: RefName, goodRef: RefName, testFn: Id -> bool) returns (r: Result<Id>, tests: nat)
      requires Valid()
      ensures var bad, good := CommitGraph.ResolveRef(Tables(), badRef), CommitGraph.ResolveRef(Tables(), goodRef);
              if bad.None? || good.None? || CommitGraph.ResolveRef(Tables(), bad.value).None? then r == Failure(RefNotFound)
              else
                var line := Line(nodes, CommitGraph.ResolveRef(Tables(), bad.value), 1000);
                if good.value !in line then r == Failure(BisectInvalidRange)
                else
                  var range := Through(line, good.value);
                  r.Success? && BisectAnswer(range, testFn, r.value, tests)
    {
      tests := 0;
      var bad := ResolveRef(badRef);
      if bad.Failure? { return Failure(bad.error), 0; }
      var good := ResolveRef(goodRef);
      if good.Failure? { return Failure(good.error), 0; }
      var history := History(bad.value, 1000);
      if history.Failure? { return Failure(history.error), 0; }
      r, tests := BisectLine(history.value, good.value, testFn);
    }

    // -------------------------------------------------------------- garbage collection

    /** Nothing dangles, and `reader` can read every row and all that it sees from there. */
    ghost predicate Collectable(reader: TreeStore)
      reads this, store, reader
    {
      Sound(Tables()) && RootsStored(nodes, store.trees) && Covers(reader.trees, store.trees)
    }

    /**
     * Deletes expired branches, every node that no ref and no reflog entry reaches, and every tree that
     * `reader` does not see from the roots that are left.
     */
    method Gc(now: int, reader: TreeStore) returns (report: GcReport)
      requires Collectable(reader)
      modifies this, store
      ensures Tables() == Collect(old(Tables()), now)
      ensures TreesCollected(old(reader.trees), old(store.trees), store.trees, nodes)
      ensures RootsStored(nodes, store.trees)
      ensures report.prunedNodes == |old(nodes)| - |nodes|
      ensures report.prunedTrees == |old(store.trees)| - |store.trees|
      ensures report.vaporizedBranches == |old(branches)| - |branches|
    {
      ghost var before := Tables();
      KeptSound(before, now);
      CollectSound(before, now);
      var vaporized := VaporizeBranches(now);
      var prunedNodes, prunedTrees := MarkAndPrune(reader);
      report := GcReport(prunedNodes, prunedTrees, vaporized);
    }

    /**
     * Where every surviving root reads right and none is too deep, collection leaves exactly the live trees
     * and a valid repository.
     */
    method GcExactly(now: int, reader: TreeStore) returns (report: GcReport)
      requires Valid() && Covers(reader.trees, store.trees)
      requires RightRoots(reader.trees, Collect(Tables(), now).nodes) && Shallow(Collect(Tables(), now).nodes)
      modifies this, store
      ensures Valid() && Tables() == Collect(old(Tables()), now)
      ensures store.trees == CollectTrees(nodes, old(store.trees))
      ensures report == GcReport(|old(nodes)| - |nodes|, |old(store.trees)| - |store.trees|, |old(branches)| - |branches|)
    {
      ghost var before, view, trees := Tables(), reader.trees, store.trees;
      CollectSound(before, now);
      assert RootsStored(Collect(before, now).nodes, trees);
      report := Gc(now, reader);
      PruneExactly(view, trees, nodes, store.trees);
    }

    /** The collection proper, once the expired branches are gone. */
    method MarkAndPrune(reader: TreeStore) returns (prunedNodes: int, prunedTrees: int)
      requires Collectable(reader)
      modifies `nodes, store
      ensures nodes == map id | id in old(nodes) && Live(old(Tables()), id) :: old(nodes)[id]
      ensures TreesCollected(old(reader.trees), old(store.trees), store.trees, nodes)
      ensures RootsStored(nodes, store.trees)
      ensures prunedNodes == |old(nodes)| - |nodes|
      ensures prunedTrees == |old(store.trees)| - |store.trees|
    {
      ghost var before, treesBefore, view := Tables(), store.trees, reader.trees;
      var heads := Heads(Graph(nodes, branches, tags, stashes, reflog));
      var reachableNodes, reachableTrees := MarkAll(heads, reader);
      prunedNodes := PruneNodes(reachableNodes);
      prunedTrees := PruneTrees(reachableTrees);
      PruneOutcome(before, view, treesBefore, reachableNodes, reachableTrees, nodes, store.trees);
    }

    method VaporizeBranches(now: int) returns (count: int)
      modifies this`branches
      ensures branches == Unexpired(old(branches), now)
      ensures forall b | b in old(branches) ::
                b in branches <==> !(old(branches)[b].ephemeral && old(branches)[b].createdAt < now - 60 * 60 * 1000)
      ensures count == |old(branches)| - |branches|
    {
      count := 0;
      var pending := set b | b in branches && branches[b].ephemeral;
      ghost var all := branches;
      while pending != {}
        invariant pending <= all.Keys
        invariant forall b :: b in branches <==> b in all && (b in pending || !Expired(all[b], now))
        invariant forall b | b in branches :: branches[b] == all[b]
        invariant forall b | b in pending :: b in branches
        invariant count == |all| - |branches|
        decreases pending
      {
        var name :| name in pending;
        pending := pending - {name};
        if branches[name].createdAt < now - ONE_HOUR {
          Removed(branches, name);
          branches := branches - {name};
          count := count + 1;
        }
      }
      assert branches == Unexpired(all, now);
    }

    method MarkAll(heads: set<Id>, reader: TreeStore) returns (visitedNodes: set<Id>, visitedTrees: set<TreeHash>)
      requires Sound(Tables()) && Closed(reader.trees) && RootsStored(nodes, reader.trees)
      requires heads == Heads(Tables())
      ensures Marked(Tables(), reader.trees, visitedNodes, visitedTrees)
      ensures forall id | id in nodes :: id in visitedNodes <==> Live(Tables(), id)
    {
      visitedNodes, visitedTrees := {}, {};
      var pending := heads;
      while pending != {}
        invariant pending <= heads
        invariant Marked(Tables(), reader.trees, visitedNodes, visitedTrees)
        invariant heads - pending <= visitedNodes && ClosedUp(nodes, visitedNodes, None)
        decreases pending
      {
        var head :| head in pending;
        pending := pending - {head};
        HeadInGraph(Tables(), head);
        HeadLives(Tables(), head);
        visitedNodes, visitedTrees := MarkReachable(head, visitedNodes, visitedTrees, reader);
      }
      LiveMarked(Tables(), visitedNodes);
    }

    /** Walks the parents of one head until it meets a marked node, marking nodes and their trees. */
    method MarkReachable(start: Id, nodesSoFar: set<Id>, treesSoFar: set<TreeHash>, reader: TreeStore)
      returns (visitedNodes: set<Id>, visitedTrees: set<TreeHash>)
      requires Sound(Tables()) && Closed(reader.trees) && RootsStored(nodes, reader.trees)
      requires Live(Tables(), start) && start in nodes
      requires Marked(Tables(), reader.trees, nodesSoFar, treesSoFar) && ClosedUp(nodes, nodesSoFar, None)
      ensures Marked(Tables(), reader.trees, visitedNodes, visitedTrees)
      ensures nodesSoFar + {start} <= visitedNodes && ClosedUp(nodes, visitedNodes, None)
    {
      visitedNodes, visitedTrees := nodesSoFar, treesSoFar;
      var currentId := Some(start);
      while currentId.Some?
        invariant nodesSoFar <= visitedNodes && (start in visitedNodes || currentId == Some(start))
        invariant currentId.Some? ==> currentId.value in nodes && Live(Tables(), currentId.value)
        invariant Marked(Tables(), reader.trees, visitedNodes, visitedTrees)
        invariant ClosedUp(nodes, visitedNodes, currentId)
        decreases nodes.Keys - visitedNodes, currentId.Some?
      {
        var id := currentId.value;
        if id in visitedNodes {
          break;
        }
        var node := nodes[id];
        ghost var treesBefore := visitedTrees;
        if node.root.Some? {
          var marked := reader.MarkTreeReachable(node.root.value, visitedTrees, 0);
          visitedTrees := marked.value;
        }
        MarkOneMore(Tables(), reader.trees, visitedNodes, treesBefore, id, visitedTrees);
        ClosedUpStep(nodes, visitedNodes, id);
        visitedNodes := visitedNodes + {id};
        if node.parent.Some? { ParentLives(Tables(), id); }
        currentId := node.parent;
      }
    }

    method PruneNodes(reachable: set<Id>) returns (pruned: int)
      modifies this`nodes
      ensures nodes == map id | id in old(nodes) && id in reachable :: old(nodes)[id]
      ensures pruned == |old(nodes)| - |nodes|
    {
      pruned := 0;
      var pending := nodes.Keys;
      ghost var all := nodes;
      while pending != {}
        invariant pending <= nodes.Keys
        invariant forall id :: id in nodes <==> id in all && (id in pending || id in reachable)
        invariant forall id | id in nodes :: nodes[id] == all[id]
        invariant pruned == |all| - |nodes|
        decreases pending
      {
        var id :| id in pending;
        pending := pending - {id};
        if id !in reachable {
          Removed(nodes, id);
          nodes := nodes - {id};
          pruned := pruned + 1;
        }
      }
    }

    method PruneTrees(reachable: set<TreeHash>) returns (pruned: int)
      modifies store
      ensures store.trees == map t | t in old(store.trees) && t in reachable :: old(store.trees)[t]
      ensures pruned == |old(store.trees)| - |store.trees|
    {
      pruned := 0;
      var pending := store.trees.Keys;
      ghost var all := store.trees;
      while pending != {}
        invariant pending <= store.trees.Keys
        invariant forall t :: t in store.trees <==> t in all && (t in pending || t in reachable)
        invariant forall t | t in store.trees :: store.trees[t] == all[t]
        invariant pruned == |all| - |store.trees|
        decreases pending
      {
        var t :| t in pending;
        pending := pending - {t};
        if t !in reachable {
          Removed(store.trees, t);
          store.trees := store.trees - {t};
          pruned := pruned + 1;
        }
      }
    }
  }

  /** A second collection at the same time finds nothing to prune. */
  method GcTwice(repo: Repository, now: int, reader: TreeStore) returns (second: GcReport)
    requires repo.Collectable(reader) && ShallowIn(reader.trees, Collect(repo.Tables(), now).nodes)
    modifies repo, repo.store
    ensures second.prunedNodes == second.prunedTrees == second.vaporizedBranches == 0
    ensures repo.Tables() == Collect(old(repo.Tables()), now)
    ensures TreesCollected(old(reader.trees), old(repo.store.trees), repo.store.trees, repo.nodes)
  {
    ghost var before, view, trees := repo.Tables(), reader.trees, repo.store.trees;
    var _ := repo.Gc(now, reader);
    CollectTwice(before, trees, now);
    CollectSound(before, now);
    if reader == repo.store {
      assert RootsStored(repo.nodes, trees);
      CollectedView(view, repo.store.trees, repo.nodes);
    } else {
      forall t | t in repo.store.trees ensures t in trees && Reached(view, repo.nodes, t) {
        assert KeptRow(view, trees, repo.store.trees, repo.nodes, t);
      }
    }
    second := GcAgain(repo, now, reader);
  }

  /** Collecting what is already collected. */
  method GcAgain(repo: Repository, now: int, reader: TreeStore) returns (report: GcReport)
    requires repo.Collectable(reader) && ShallowIn(reader.trees, repo.nodes)
    requires Collect(repo.Tables(), now) == repo.Tables()
    requires forall t | t in repo.store.trees :: Reached(reader.trees, repo.nodes, t)
    modifies repo, repo.store
    ensures report.prunedNodes == report.prunedTrees == report.vaporizedBranches == 0
    ensures repo.Tables() == old(repo.Tables()) && repo.store.trees == old(repo.store.trees)
  {
    ghost var before, view, trees := repo.Tables(), reader.trees, repo.store.trees;
    report := repo.Gc(now, reader);
    NothingLeft(before, repo.Tables(), now, view, trees, repo.store.trees);
  }

  lemma NothingLeft(before: Graph, after: Graph, now: int, view: TreeTable, trees: TreeTable, trees': TreeTable)
    requires after == Collect(before, now) == before
    requires TreesCollected(view, trees, trees', after.nodes) && ShallowIn(view, before.nodes)
    requires forall t | t in trees :: Reached(view, before.nodes, t)
    ensures after == before && after.nodes == before.nodes && after.branches == before.branches && trees' == trees
  {
    NothingCollected(view, trees, trees', before.nodes);
  }

  /**
   * A directory that is not seen from any surviving root within the depth limit is deleted: one that is too
   * deep, one that a running operation has written and not committed yet, or one that is hidden because a
   * directory above it reads wrongly.
   */
  method UnreachedTreeIsDeleted(repo: Repository, now: int, reader: TreeStore, t: TreeHash) returns (report: GcReport)
    requires repo.Collectable(reader)
    requires !SeenFromRoots(reader.trees, Collect(repo.Tables(), now).nodes, t, LEVELS)
    modifies repo, repo.store
    ensures t !in repo.store.trees && repo.Tables() == Collect(old(repo.Tables()), now)
  {
    ghost var view, trees := reader.trees, repo.store.trees;
    report := repo.Gc(now, reader);
    assert t in repo.store.trees ==> KeptRow(view, trees, repo.store.trees, repo.nodes, t);
  }

  /** With a tree of more than 101 levels as the only surviving root, its live innermost directory is deleted. */
  method DeepTreeIsDeleted(repo: Repository, now: int, id: Id, ghost d: nat) returns (report: GcReport)
    requires repo.Valid() && d >= LEVELS
    requires Collect(repo.Tables(), now).nodes == map[id := Node(None, Some(Chain(d)))]
    modifies repo, repo.store
    ensures Chain(0) in old(repo.store.trees) && Chain(0) !in repo.store.trees
    ensures LiveTree(repo.nodes, Chain(0))
  {
    ghost var nodes := Collect(repo.Tables(), now).nodes;
    DeepTreeIsMissed(nodes, id, d);
    assert id in nodes && repo.nodes[id] == nodes[id];
    ClosedIsRight(repo.store.trees, Chain(d));
    assert RightRoots(repo.store.trees, nodes);
    RightRootsSeen(repo.store.trees, nodes);
    ChainStored(repo.store.trees, d);
    report := UnreachedTreeIsDeleted(repo, now, repo.store, Chain(0));
  }

  lemma {:induction false} ChainStored(trees: TreeTable, d: nat)
    requires Closed(trees) && ContentAddressed(trees) && Chain(d) in trees
    ensures Chain(0) in trees
  {
    if d > 0 {
      assert IsTree(Get(trees[Chain(d)], "d"));
      ChainStored(trees, d - 1);
    }
  }

  lemma Removed<K, V>(m: map<K, V>, k: K)
    requires k in m
    ensures |m - {k}| == |m| - 1
  {
    assert (m - {k}).Keys == m.Keys - {k};
  }

  /** The node was born before all of the set, so it is not one of them. */
  ghost predicate Older(nodes: NodeTable, born: map<Id, nat>, id: Id, others: set<Id>) {
    id in nodes && id in born && forall x | x in others :: x in born && born[id] < born[x]
  }

  lemma OlderParent(nodes: NodeTable, born: map<Id, nat>, id: Id, others: set<Id>)
    requires Ranked(nodes, born) && Older(nodes, born, id, others)
    ensures id !in others && Nth(nodes, nodes[id].parent, 0) == nodes[id].parent
    ensures nodes[id].parent.Some? ==> Older(nodes, born, nodes[id].parent.value, others + {id})
  {
  }

  function SetOf(s: seq<Id>): set<Id> {
    set x | x in s
  }

  lemma SetOfSnoc(s: seq<Id>, x: Id)
    ensures SetOf(s + [x]) == SetOf(s) + {x}
  {
  }

  /** One more ancestor. */
  lemma NearStep(nodes: NodeTable, born: map<Id, nat>, a: Id, x: Id, near: set<Id>)
    requires Ranked(nodes, born) && Older(nodes, born, x, near)
    requires Nth(nodes, Some(a), |near|) == Some(x) && near == SetOf(Line(nodes, Some(a), |near|))
    ensures var near' := near + {x};
            && |near'| == |near| + 1 && near' == SetOf(Line(nodes, Some(a), |near'|))
            && nodes[x].parent == Nth(nodes, Some(a), |near'|)
            && (nodes[x].parent.Some? ==> Older(nodes, born, nodes[x].parent.value, near'))
  {
    LineSnoc(nodes, Some(a), |near|, x);
    OlderParent(nodes, born, x, near);
    SetOfSnoc(Line(nodes, Some(a), |near|), x);
  }

  /** A node and its nearest ancestors, `bound + 1` in all if there are so many. */
  function Near(nodes: NodeTable, a: Id, bound: nat): set<Id> {
    SetOf(Line(nodes, Some(a), bound + 1))
  }

  /** The `k` nodes nearest to `b` on its line exist and are not in `near`. */
  ghost predicate NoneBefore(nodes: NodeTable, near: set<Id>, b: Id, k: nat) {
    forall j: nat | j < k :: Nth(nodes, Some(b), j).Some? && Nth(nodes, Some(b), j).value !in near
  }

  /** `x` is the `k`-th ancestor of `b`, and no nearer ancestor of `b` is in `near`. */
  ghost predicate NearestFrom(nodes: NodeTable, near: set<Id>, b: Id, x: Id, k: nat) {
    Nth(nodes, Some(b), k) == Some(x) && x in near && NoneBefore(nodes, near, b, k)
  }

  lemma NoneAtAll(nodes: NodeTable, near: set<Id>, b: Id, k: nat)
    requires NoneBefore(nodes, near, b, k) && Nth(nodes, Some(b), k) == None
    ensures forall x | x in near :: !IsAncestor(nodes, x, b)
  {
    forall x | x in near ensures !IsAncestor(nodes, x, b) {
      forall j: nat ensures Nth(nodes, Some(b), j) != Some(x) {
        if j >= k { NthAdd(nodes, Some(b), k, j - k); }
      }
    }
  }

  function TreeOf(view: TreeTable, nodes: NodeTable, flat: Id -> FlatTree, id: Id): FlatTree {
    if id in nodes && nodes[id].root.Some? then FlatIn(view, nodes[id].root.value, LEVELS) else flat(id)
  }

  /** The file that each commit shows at a path. */
  function FilesAt(view: TreeTable, nodes: NodeTable, flat: Id -> FlatTree, path: Path): Id -> Option<FileId> {
    (id: Id) => Look(TreeOf(view, nodes, flat, id), path)
  }

  /** The file is the same in the newest `i + 1` commits, and the next older one differs or is not listed. */
  ghost predicate IntroducedAt(files: Id -> Option<FileId>, line: seq<Id>, i: nat) {
    && i < |line|
    && files(line[0]).Some?
    && (forall j | 0 <= j <= i :: files(line[j]) == files(line[0]))
    && (i + 1 < |line| ==> files(line[i + 1]) != files(line[0]))
  }

  /** There is only one such commit. */
  lemma IntroducedOnce(files: Id -> Option<FileId>, line: seq<Id>, i: nat, j: nat)
    requires IntroducedAt(files, line, i) && IntroducedAt(files, line, j)
    ensures i == j
  {
    var afterI := if i + 1 < |line| then files(line[i + 1]) else None;
    var afterJ := if j + 1 < |line| then files(line[j + 1]) else None;
  }

  /** Where the roots of the listed commits read right, blame gives the answer of the trees themselves. */
  lemma BlameReadsRight(view: TreeTable, nodes: NodeTable, flat: Id -> FlatTree, path: Path, line: seq<Id>, i: nat)
    requires forall j | 0 <= j < |line| && line[j] in nodes && nodes[line[j]].root.Some? ::
               RightTree(view, nodes[line[j]].root.value)
    ensures IntroducedAt(FilesAt(view, nodes, flat, path), line, i)
       <==> IntroducedAt(id => if id in nodes && nodes[id].root.Some? && |path| <= LEVELS then At(nodes[id].root.value, path)
                               else if id in nodes && nodes[id].root.Some? then None
                               else Look(flat(id), path), line, i)
  {
    forall j | 0 <= j < |line| && line[j] in nodes && nodes[line[j]].root.Some?
      ensures Look(TreeOf(view, nodes, flat, line[j]), path)
           == if |path| <= LEVELS then At(nodes[line[j]].root.value, path) else None
    {
      var root := nodes[line[j]].root.value;
      FlatInIsSeen(view, root, LEVELS);
      RightTreeTo(view, root, LEVELS);
      if |path| <= LEVELS { SeenInIsAt(view, root, path, LEVELS); }
    }
  }

  lemma InLine(nodes: NodeTable, id: Option<Id>, limit: nat, i: nat)
    requires i < |Line(nodes, id, limit)|
    ensures Line(nodes, id, limit)[i] in nodes
  {
    LineIsNth(nodes, id, limit, i);
    NthIsNode(nodes, id, i);
  }

  lemma {:induction false} NthIsNode(nodes: NodeTable, id: Option<Id>, k: nat)
    ensures Nth(nodes, id, k).Some? ==> Nth(nodes, id, k).value in nodes
    decreases k
  {
    if k > 0 && id.Some? && id.value in nodes {
      NthIsNode(nodes, nodes[id.value].parent, k - 1);
    }
  }

  lemma {:induction false} LineSnoc(nodes: NodeTable, id: Option<Id>, n: nat, x: Id)
    requires Nth(nodes, id, n) == Some(x)
    ensures Line(nodes, id, n + 1) == Line(nodes, id, n) + [x]
    ensures x in nodes && Nth(nodes, id, n + 1) == Nth(nodes, nodes[x].parent, 0)
    decreases n
  {
    if n > 0 {
      LineSnoc(nodes, nodes[id.value].parent, n - 1, x);
    }
  }

  lemma {:induction false} LineStops(nodes: NodeTable, id: Option<Id>, n: nat, more: nat)
    requires Nth(nodes, id, n) == None && n <= more
    ensures Line(nodes, id, more) == Line(nodes, id, n)
    decreases n
  {
    if n > 0 && id.Some? && id.value in nodes {
      LineStops(nodes, nodes[id.value].parent, n - 1, more - 1);
    }
  }

  /** When the whole line of `a` was searched, every common ancestor is an ancestor of the one found. */
  lemma LowestCommonAncestor(nodes: NodeTable, a: Id, b: Id, bound: nat, x: Id, k: nat, c: Id)
    requires NearestFrom(nodes, Near(nodes, a, bound), b, x, k)
    requires Nth(nodes, Some(a), bound + 1) == None
    requires IsAncestor(nodes, c, a) && IsAncestor(nodes, c, b)
    ensures IsAncestor(nodes, c, x)
  {
    NearAncestorListed(nodes, a, bound, c);
    var j: nat :| Nth(nodes, Some(b), j) == Some(c);
    assert j >= k;
    NthAdd(nodes, Some(b), k, j - k);
  }

  lemma NearAncestorListed(nodes: NodeTable, a: Id, bound: nat, c: Id)
    requires Nth(nodes, Some(a), bound + 1) == None && IsAncestor(nodes, c, a)
    ensures c in Near(nodes, a, bound)
  {
    var i: nat :| Nth(nodes, Some(a), i) == Some(c);
    if i > bound {
      NthAdd(nodes, Some(a), bound + 1, i - bound - 1);
    }
    LineIsNth(nodes, Some(a), bound + 1, i);
  }

  // ---------------------------------------------------------------- bisect

  lemma Halved(p: nat, width: nat, width': nat, size: nat)
    requires 1 <= width && 2 * width' <= width && p * width <= size
    ensures 2 * p * width' <= size && 2 * p <= 2 * size
  {
    assert 2 * p * width' == p * (2 * width') <= p * width;
    assert p <= p * width;
  }

  /** The line down to and including the good commit, or all of it. */
  function Through(line: seq<Id>, good: Id): seq<Id> {
    if line == [] then [] else if line[0] == good then [good] else [line[0]] + Through(line[1..], good)
  }

  lemma {:induction false} ThroughEnds(line: seq<Id>, good: Id)
    ensures var range := Through(line, good);
            range <= line && (good in line <==> range != [] && range[|range| - 1] == good)
  {
    if line != [] && line[0] != good {
      ThroughEnds(line[1..], good);
      assert line == [line[0]] + line[1..];
    }
  }

  /** The loop of `bisect` that cuts the range out of the history. */
  method TakeThrough(line: seq<Id>, good: Id) returns (range: seq<Id>)
    ensures range == Through(line, good)
  {
    range := [];
    for i := 0 to |line|
      invariant range + Through(line[i..], good) == Through(line, good)
    {
      assert line[i..][1..] == line[i + 1..];
      assert range + ([line[i]] + Through(line[i + 1..], good)) == (range + [line[i]]) + Through(line[i + 1..], good);
      range := range + [line[i]];
      if line[i] == good {
        return;
      }
    }
    assert range + [] == range;
  }

  /** The part of `bisect` that works on the history. */
  method BisectLine(line: seq<Id>, good: Id, testFn: Id -> bool) returns (r: Result<Id>, tests: nat)
    ensures if good !in line then r == Failure(BisectInvalidRange)
            else r.Success? && BisectAnswer(Through(line, good), testFn, r.value, tests)
  {
    var range := TakeThrough(line, good);
    ThroughEnds(line, good);
    if range == [] || range[|range| - 1] != good {
      return Failure(BisectInvalidRange), 0;
    }
    var firstBad, n := BisectRange(range, testFn);
    r, tests := Success(firstBad), n;
  }

  /** What `bisect` promises of its answer and of the number of tests it ran. */
  ghost predicate BisectAnswer(range: seq<Id>, good: Id -> bool, x: Id, tests: nat) {
    && range != [] && x in range
    && (!good(range[0]) && good(range[|range| - 1]) ==> exists i: nat :: Boundary(range, good, i, x))
    && Pow2(tests) <= 2 * |range|
  }

  method BisectRange(range: seq<Id>, testFn: Id -> bool) returns (firstBad: Id, tests: nat)
    requires range != []
    ensures BisectAnswer(range, testFn, firstBad, tests)
  {
    tests := 0;
    var low, high := 0, |range| - 1;
    firstBad := range[0];
    while low <= high
      invariant 0 <= low <= high + 1 <= |range|
      invariant if low == 0 then firstBad == range[0] else firstBad == range[low - 1] && !testFn(range[low - 1])
      invariant high + 1 < |range| ==> testFn(range[high + 1])
      invariant Pow2(tests) * (high - low + 1) <= |range|
      invariant Pow2(tests) <= 2 * |range|
      decreases high - low + 1
    {
      ghost var width := high - low + 1;
      var mid := (low + high) / 2;
      var isGood := testFn(range[mid]);
      tests := tests + 1;
      if isGood {
        high := mid - 1;
      } else {
        firstBad := range[mid];
        low := mid + 1;
      }
      Halved(Pow2(tests - 1), width, high - low + 1, |range|);
    }
    if !testFn(range[0]) && testFn(range[|range| - 1]) {
      assert Boundary(range, testFn, low - 1, firstBad);
    }
  }

  /** A bad commit whose next older commit in the range is good. */
  ghost predicate Boundary(range: seq<Id>, good: Id -> bool, i: nat, x: Id) {
    i + 1 < |range| && range[i] == x && !good(x) && good(range[i + 1])
  }

  /** If goodness never returns once lost, the boundary is unique: it is the first bad commit. */
  lemma BoundaryIsFirstBad(range: seq<Id>, good: Id -> bool, i: nat, x: Id)
    requires Boundary(range, good, i, x)
    requires forall j, k | 0 <= j < k < |range| && good(range[j]) :: good(range[k])
    ensures forall j | 0 <= j < |range| :: good(range[j]) <==> j > i
  {
  }

  /** The next older commit in a history is the parent. */
  lemma NextInLineIsParent(nodes: NodeTable, id: Option<Id>, limit: nat, i: nat)
    requires i + 1 < |Line(nodes, id, limit)|
    ensures var line := Line(nodes, id, limit); line[i] in nodes && nodes[line[i]].parent == Some(line[i + 1])
  {
    LineIsNth(nodes, id, limit, i);
    LineIsNth(nodes, id, limit, i + 1);
    NthAdd(nodes, id, i, 1);
    var p := nodes[Line(nodes, id, limit)[i]].parent;
    assert Nth(nodes, p, 0) == Some(Line(nodes, id, limit)[i + 1]);
  }

  // ---------------------------------------------------------------- marking

  /** A walk down from the root of some live node comes to the directory, within the depth limit. */
  ghost predicate FromLiveRoot(g: Graph, view: TreeTable, t: TreeHash) {
    exists id :: id in g.nodes && Live(g, id) && g.nodes[id].root.Some? && Reaches(view, g.nodes[id].root.value, t, LEVELS)
  }

  ghost predicate LiveShallow(g: Graph, view: TreeTable) {
    forall id | id in g.nodes && Live(g, id) && g.nodes[id].root.Some? :: WithinView(view, g.nodes[id].root.value, LEVELS)
  }

  /** Only live nodes and what is seen from them is marked; without long walks nothing seen from a mark is missed. */
  ghost predicate Marked(g: Graph, view: TreeTable, ns: set<Id>, ts: set<TreeHash>) {
    && (forall id | id in ns :: id in g.nodes && Live(g, id))
    && (forall t {:trigger FromLiveRoot(g, view, t)} | t in ts :: FromLiveRoot(g, view, t))
    && (forall id | id in ns && g.nodes[id].root.Some? :: g.nodes[id].root.value in ts)
    && (LiveShallow(g, view) ==> Expanded(view, ts, ts))
  }

  lemma HeadInGraph(g: Graph, h: Id)
    requires Sound(g) && h in Heads(g)
    ensures h in g.nodes
  {
  }

  lemma MarkOneMore(g: Graph, view: TreeTable, ns: set<Id>, ts: set<TreeHash>, id: Id, ts': set<TreeHash>)
    requires Marked(g, view, ns, ts) && id in g.nodes && Live(g, id)
    requires match g.nodes[id].root
             case None => ts' == ts
             case Some(root) => MarkedFrom(view, root, LEVELS, ts, ts')
    ensures Marked(g, view, ns + {id}, ts')
  {
    forall t | t in ts' ensures FromLiveRoot(g, view, t) {
      if t in ts { assert FromLiveRoot(g, view, t); } else { assert Reaches(view, g.nodes[id].root.value, t, LEVELS); }
    }
    if LiveShallow(g, view) {
      forall t | t in ts' ensures ChildrenIn(view, t, DirIn(view, t).Keys, ts') {
        if t in ts { assert ChildrenIn(view, t, DirIn(view, t).Keys, ts); }
      }
    }
  }

  lemma KeptSound(g: Graph, now: int)
    requires Sound(g)
    ensures Sound(g.(branches := Unexpired(g.branches, now)))
  {
  }

  /** Pruning what is not marked. */
  lemma PruneOutcome(g: Graph, view: TreeTable, trees: TreeTable, ns: set<Id>, ts: set<TreeHash>, nodes: NodeTable,
                     trees': TreeTable)
    requires RootsStored(g.nodes, trees) && Marked(g, view, ns, ts)
    requires forall id | id in g.nodes :: id in ns <==> Live(g, id)
    requires nodes == map id | id in g.nodes && id in ns :: g.nodes[id]
    requires trees' == map t | t in trees && t in ts :: trees[t]
    ensures nodes == map id | id in g.nodes && Live(g, id) :: g.nodes[id]
    ensures TreesCollected(view, trees, trees', nodes) && RootsStored(nodes, trees')
  {
    SameNodes(g, ns);
    MarkedTreesAreSeen(g, view, nodes, ns, ts);
    forall t | t in trees' ensures KeptRow(view, trees, trees', nodes, t) {
      assert SeenFromRoots(view, nodes, t, LEVELS);
    }
    forall id | id in nodes ensures RootKept(trees, trees', nodes, id) {
    }
  }

  lemma PruneExactly(view: TreeTable, trees: TreeTable, nodes: NodeTable, trees': TreeTable)
    requires TreesCollected(view, trees, trees', nodes) && RightRoots(view, nodes) && Shallow(nodes)
    requires Closed(trees) && ContentAddressed(trees) && RootsStored(nodes, trees)
    ensures trees' == CollectTrees(nodes, trees) && Closed(trees') && ContentAddressed(trees')
  {
    CollectedExactly(view, trees, trees', nodes);
    CollectedTreesClosed(nodes, trees);
  }

  lemma SameNodes(g: Graph, ns: set<Id>)
    requires forall id | id in g.nodes :: id in ns <==> Live(g, id)
    ensures (map id | id in g.nodes && id in ns :: g.nodes[id]) == map id | id in g.nodes && Live(g, id) :: g.nodes[id]
  {
  }

  /** After the nodes are pruned, the marked directories are those seen from the surviving roots. */
  lemma MarkedTreesAreSeen(g: Graph, view: TreeTable, nodes: NodeTable, ns: set<Id>, ts: set<TreeHash>)
    requires Marked(g, view, ns, ts)
    requires forall id :: id in nodes <==> id in ns
    requires forall id | id in nodes :: nodes[id] == g.nodes[id]
    requires forall id | id in g.nodes && Live(g, id) :: id in ns
    ensures forall t {:trigger SeenFromRoots(view, nodes, t, LEVELS)} | t in ts :: SeenFromRoots(view, nodes, t, LEVELS)
    ensures forall id | id in nodes && nodes[id].root.Some? :: nodes[id].root.value in ts
    ensures ShallowIn(view, nodes) ==> forall t | Reached(view, nodes, t) :: t in ts
  {
    forall t | t in ts ensures SeenFromRoots(view, nodes, t, LEVELS) {
      assert FromLiveRoot(g, view, t);
      var id :| id in g.nodes && Live(g, id) && g.nodes[id].root.Some? && Reaches(view, g.nodes[id].root.value, t, LEVELS);
      assert nodes[id].root.Some?;
    }
    if ShallowIn(view, nodes) {
      forall id | id in g.nodes && Live(g, id) && g.nodes[id].root.Some?
        ensures WithinView(view, g.nodes[id].root.value, LEVELS)
      {
        assert nodes[id].root.Some?;
      }
      forall t | Reached(view, nodes, t) ensures t in ts {
        ReachedMarked(view, nodes, ts, t);
      }
    }
  }

  lemma ReachedMarked(view: TreeTable, nodes: NodeTable, ts: set<TreeHash>, t: TreeHash)
    requires Expanded(view, ts, ts) && Reached(view, nodes, t)
    requires forall id | id in nodes && nodes[id].root.Some? :: nodes[id].root.value in ts
    ensures t in ts
  {
    var levels: nat :| SeenFromRoots(view, nodes, t, levels);
    var id :| id in nodes && nodes[id].root.Some? && Reaches(view, nodes[id].root.value, t, levels);
    SeenMarked(view, ts, nodes[id].root.value, t, levels);
  }
}
