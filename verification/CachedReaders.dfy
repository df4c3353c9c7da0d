/**
 * Collection, blame and merge over the tree cache as it is.  A walk that only reads leaves what readers see
 * as it is, so the walks of the collector and of blame are walks over a snapshot of it.  The merge writes
 * new directories but edits none, so it is right whenever its three trees read right.
 */
module CachedReaders {
  import opened Wrappers
  import opened Paths
  import opened MerkleTrees
  import opened TreeMerge
  import opened TreeViews
  import opened TreeStorage
  import opened TreeCache
  import opened CommitGraph
  import opened GarbageCollection
  import opened Repository

  /** What the readers of the cache see, as a store to read from. */
  method Snapshot(store: CachedTreeStore) returns (reader: TreeStore)
    ensures fresh(reader) && reader.trees == store.View()
  {
    reader := new TreeStore();
    reader.trees := store.View();
  }

  // ---------------------------------------------------------------- everything that is seen can be read

  /** The directories that are built name each other and directories that were seen. */
  lemma {:induction false} BuiltNames(view: TreeTable, root: Option<TreeHash>, p: Path, e: Option<Entry>, h: TreeHash, n: Name)
    requires p != [] && Closed(view) && !IsTree(e) && ReadSpine(view, root, p) <= view.Keys
    requires h in BuiltSpine(view, root, p, e) && IsTree(Get(h.entries, n))
    ensures h.entries[n].tree in view || h.entries[n].tree in BuiltSpine(view, root, p, e)
    decreases |p|
  {
    if h != Built(view, root, p, e) {
      BuiltNames(view, BelowIn(view, root, p[0]), p[1..], e, h, n);
    }
  }

  /** A directory that was seen before, or one of those just built. */
  ghost predicate OldOrBuilt(view: TreeTable, root: Option<TreeHash>, p: Path, e: Option<Entry>, d: Dir)
    requires p != []
  {
    (exists h :: h in view && d == view[h]) || (exists h :: h in BuiltSpine(view, root, p, e) && d == h.entries)
  }

  lemma NamesStored(view: TreeTable, root: Option<TreeHash>, p: Path, e: Option<Entry>, d: Dir, n: Name)
    requires p != [] && Closed(view) && !IsTree(e) && ReadSpine(view, root, p) <= view.Keys
    requires OldOrBuilt(view, root, p, e, d) && IsTree(Get(d, n))
    ensures d[n].tree in view || d[n].tree in BuiltSpine(view, root, p, e)
  {
    if h :| h in BuiltSpine(view, root, p, e) && d == h.entries {
      BuiltNames(view, root, p, e, h, n);
    }
  }

  /** No edit makes a reader see a directory that cannot be read. */
  method EditKeepsClosed(store: CachedTreeStore, root: Option<TreeHash>, path: Path, entry: Option<Entry>)
    returns (r: Option<TreeHash>)
    requires path != [] && !IsTree(entry) && Closed(store.View())
    requires Separate(store.cache, ReadWay(store.View(), root, path))
    modifies store, store.cache.Values
    ensures Closed(store.View())
  {
    ghost var view := store.View();
    r := ReadsAfterEdit(store, root, path, entry, view);
    if r.Some? {
      ghost var after := store.View();
      assert forall h :: (h in after <==> store.Reads(h).Some?) && ReadsOldOrBuilt(store.Reads(h), view, root, path, entry, h);
      forall h, n | h in after && IsTree(Get(after[h], n)) ensures after[h][n].tree in after {
        assert after[h] == store.Reads(h).value;
        NamesStored(view, root, path, entry, after[h], n);
      }
    } else {
      assert store.View() == view;
    }
  }

  ghost predicate ReadsOldOrBuilt(dir: Option<Dir>, view: TreeTable, root: Option<TreeHash>, p: Path, e: Option<Entry>,
                                  h: TreeHash)
    requires p != []
  {
    && (dir.Some? <==> h in view || h in BuiltSpine(view, root, p, e))
    && (dir.Some? ==> OldOrBuilt(view, root, p, e, dir.value))
  }

  method ReadsAfterEdit(store: CachedTreeStore, root: Option<TreeHash>, path: Path, entry: Option<Entry>, ghost view: TreeTable)
    returns (r: Option<TreeHash>)
    requires path != [] && store.Shows(view) && Separate(store.cache, ReadWay(view, root, path))
    modifies store, store.cache.Values
    ensures r.Some? <==> ReadSpine(view, root, path) <= view.Keys
    ensures r.None? ==> store.Shows(view)
    ensures r.Some? ==> forall h :: ReadsOldOrBuilt(store.Reads(h), view, root, path, entry, h)
  {
    r := store.EditAsRead(root, path, entry, view);
    if r.Some? {
      forall h ensures ReadsOldOrBuilt(store.Reads(h), view, root, path, entry, h) {
        if h in BuiltSpine(view, root, path, entry) {
        } else if h in ReadSpine(view, root, path) {
          var h' := SpineBuilt(view, root, path, entry, h);
        } else {
          assert SameOr(old(store.Reads(h)), store.Reads(h), BuiltSpine(view, root, path, entry));
        }
      }
    }
  }

  // ---------------------------------------------------------------- collection

  /** A directory that the collector does not see is lost, and with it the tree of the commit that holds it. */
  lemma HiddenIsDeleted(view: TreeTable, before: TreeTable, after: TreeTable, nodes: NodeTable, id: Id, k: TreeHash)
    requires TreesCollected(view, before, after, nodes) && ContentAddressed(before) && !Reached(view, nodes, k)
    requires id in nodes && nodes[id].root.Some? && Inside(nodes[id].root.value, k)
    ensures k !in after && !Readable(after, nodes[id].root.value)
  {
    CollectedRows(view, before, after, nodes);
    assert k in after ==> KeptRow(view, before, after, nodes, k);
    ReadableExactlyWhen(after, nodes[id].root.value);
  }

  /** The first two commits of a branch: the files `d/x` and `d/y`. */
  function TwoCommits(first: TreeHash, second: TreeHash): NodeTable {
    map["n1" := Node(None, Some(first)), "n2" := Node(Some("n1"), Some(second))]
  }

  lemma TwoFilesInOneDirectory()
    ensures var k, k' := Digest(map["x" := Blob("1")]), Digest(map["x" := Blob("1"), "y" := Blob("2")]);
            var first, second := Digest(map["d" := Tree(k)]), Digest(map["d" := Tree(k')]);
            && Edit(None, ["d", "x"], Some(Blob("1"))) == first && Edit(Some(first), ["d", "y"], Some(Blob("2"))) == second
            && NewSpine(None, ["d", "x"], Some(Blob("1"))) == {first, k}
            && NewSpine(Some(first), ["d", "y"], Some(Blob("2"))) == {second, k'}
            && Becomes(Some(first), ["d", "y"], Some(Blob("2")), first, second)
            && first !in {second, k'} && k !in {first, second, k'}
            && Clean(None, ["d", "x"], Some(Blob("1"))) && Inside(first, k)
  {
    var k, k' := Digest(map["x" := Blob("1")]), Digest(map["x" := Blob("1"), "y" := Blob("2")]);
    var first, second := Digest(map["d" := Tree(k)]), Digest(map["d" := Tree(k')]);
    assert ["d", "x"][1..] == ["x"] && ["d", "y"][1..] == ["y"];
    assert Edit(None, ["x"], Some(Blob("1"))) == k;
    assert map["x" := Blob("1")]["y" := Blob("2")] == map["x" := Blob("1"), "y" := Blob("2")];
    assert Below(Some(first), "d") == Some(k);
    assert Edit(Some(k), ["y"], Some(Blob("2"))) == k';
    assert map["d" := Tree(k)]["d" := Tree(k')] == map["d" := Tree(k')];
    assert "y" in k'.entries && "y" !in k.entries && "d" in first.entries && "d" in second.entries && "d" !in k.entries;
    assert "d" !in k'.entries && first.entries["d"] == Tree(k) && second.entries["d"] == Tree(k');
    EmptySpine(["d", "x"]);
    InsideItself(k);
    InsideChild(first, "d", k);
  }

  /**
   * Two writes are enough: the first commit survives, but the collector does not see its directory, because
   * the root of the first commit reads as the root of the second.
   */
  method CollectionHidesDirectory() returns (store: CachedTreeStore, first: TreeHash, second: TreeHash, k: TreeHash)
    ensures fresh(store)
    ensures first == Edit(None, ["d", "x"], Some(Blob("1"))) && second == Edit(Some(first), ["d", "y"], Some(Blob("2")))
    ensures k in store.trees && Inside(first, k) && !Reached(store.View(), TwoCommits(first, second), k)
  {
    TwoFilesInOneDirectory();
    k := Digest(map["x" := Blob("1")]);
    ghost var k' := Digest(map["x" := Blob("1"), "y" := Blob("2")]);
    store, first, second := TwoWrites(["d", "x"], Some(Blob("1")), ["d", "y"], Some(Blob("2")), k, k');
    HiddenBehind(store.View(), first, second, k, k');
  }

  /** Two edits from the empty tree, when the second displaces the root of the first. */
  method TwoWrites(p: Path, a: Option<Entry>, q: Path, b: Option<Entry>, ghost k: TreeHash, ghost k': TreeHash)
    returns (store: CachedTreeStore, first: TreeHash, second: TreeHash)
    requires p != [] && q != [] && !IsTree(a) && !IsTree(b) && Clean(None, p, a) && k in NewSpine(None, p, a)
    requires var first := Edit(None, p, a);
             && Becomes(Some(first), q, b, first, Edit(Some(first), q, b)) && first !in NewSpine(Some(first), q, b)
             && k' in NewSpine(Some(first), q, b)
    ensures fresh(store) && first == Edit(None, p, a) && second == Edit(Some(first), q, b) && k in store.trees
    ensures DirIn(store.View(), first) == second.entries && DirIn(store.View(), second) == second.entries
    ensures DirIn(store.View(), k') == k'.entries
  {
    store := new CachedTreeStore();
    first := store.EditFaithful(None, p, a);
    assert k in RowsFor(NewSpine(None, p, a));
    second := WriteAgain(store, first, q, b, k');
    store.ViewReads(first);
    store.ViewReads(second);
    store.ViewReads(k');
  }

  /** An edit that displaces its root: afterwards the root reads as the new one. */
  method WriteAgain(store: CachedTreeStore, root: TreeHash, q: Path, b: Option<Entry>, ghost k': TreeHash)
    returns (second: TreeHash)
    requires q != [] && !IsTree(b) && store.Faithful(Some(root)) && root !in NewSpine(Some(root), q, b)
    requires Becomes(Some(root), q, b, root, Edit(Some(root), q, b)) && k' in NewSpine(Some(root), q, b)
    modifies store, store.cache.Values
    ensures second == Edit(Some(root), q, b) && forall h | h in old(store.trees) :: h in store.trees
    ensures store.Reads(root) == Some(second.entries) && store.Reads(second) == Some(second.entries)
    ensures store.Reads(k') == Some(k'.entries)
  {
    second := store.EditFaithful(Some(root), q, b);
    assert second in NewSpine(Some(root), q, b) && root in Displaced(Some(root), q, b) by {
      BecomesSpine(Some(root), q, b, root, second);
    }
  }

  /** From the two roots a walk comes to nothing but the roots and the new directory. */
  lemma HiddenBehind(view: TreeTable, first: TreeHash, second: TreeHash, k: TreeHash, k': TreeHash)
    requires DirIn(view, first) == DirIn(view, second) == map["d" := Tree(k')]
    requires DirIn(view, k') == map["x" := Blob("1"), "y" := Blob("2")] && k !in {first, second, k'}
    ensures !Reached(view, TwoCommits(first, second), k)
  {
    var seen, nodes := {first, second, k'}, TwoCommits(first, second);
    forall t | t in seen ensures ChildrenIn(view, t, DirIn(view, t).Keys, seen) {
    }
    forall levels: nat ensures !SeenFromRoots(view, nodes, k, levels) {
      if SeenFromRoots(view, nodes, k, levels) {
        var id :| id in nodes && nodes[id].root.Some? && Reaches(view, nodes[id].root.value, k, levels);
        SeenMarked(view, seen, nodes[id].root.value, k, levels);
      }
    }
  }

  // ---------------------------------------------------------------- blame

  lemma ShownAt(view: TreeTable, nodes: NodeTable, flat: Id -> FlatTree, path: Path, id: Id)
    requires id in nodes && nodes[id].root.Some?
    ensures FilesAt(view, nodes, flat, path)(id) == if |path| <= LEVELS then SeenIn(view, nodes[id].root.value, path) else None
  {
    FlatInIsSeen(view, nodes[id].root.value, LEVELS);
  }

  /**
   * When the root of the older of two commits reads as that of the newer, blame names the older commit for
   * every file, also for those that only the newer one holds.
   */
  lemma BlameNamesOlder(view: TreeTable, nodes: NodeTable, flat: Id -> FlatTree, path: Path, newer: Id, older: Id)
    requires newer in nodes && older in nodes && nodes[newer].root.Some? && nodes[older].root.Some?
    requires DirIn(view, nodes[older].root.value) == DirIn(view, nodes[newer].root.value)
    requires FilesAt(view, nodes, flat, path)(newer).Some?
    ensures IntroducedAt(FilesAt(view, nodes, flat, path), [newer, older], 1)
  {
    ShownAt(view, nodes, flat, path, newer);
    ShownAt(view, nodes, flat, path, older);
    SameDirSameFiles(view, nodes[older].root.value, nodes[newer].root.value, path);
  }

  lemma SameDirSameFiles(view: TreeTable, h: TreeHash, k: TreeHash, p: Path)
    requires DirIn(view, h) == DirIn(view, k)
    ensures SeenIn(view, h, p) == SeenIn(view, k, p)
  {
  }

  /** Writing `a` and then `b` is enough: blame of `b` names the commit of `a`, which does not hold it. */
  method BlameAfterTwoWrites(flat: Id -> FlatTree) returns (store: CachedTreeStore, first: TreeHash, second: TreeHash)
    ensures fresh(store)
    ensures At(first, ["b"]) == None && At(second, ["b"]) == Some("2")
    ensures IntroducedAt(FilesAt(store.View(), TwoCommits(first, second), flat, ["b"]), ["n2", "n1"], 1)
  {
    store := new CachedTreeStore();
    first := store.EditFaithful(None, ["a"], Some(Blob("1")));
    assert first.entries == map["a" := Blob("1")] && "b" !in first.entries;
    second := WriteAgain(store, first, ["b"], Some(Blob("2")), Edit(Some(first), ["b"], Some(Blob("2"))));
    store.ViewReads(first);
    store.ViewReads(second);
    BlameSeesNewer(store.View(), first, second, flat);
  }

  lemma BlameSeesNewer(view: TreeTable, first: TreeHash, second: TreeHash, flat: Id -> FlatTree)
    requires DirIn(view, first) == DirIn(view, second) == second.entries && Get(second.entries, "b") == Some(Blob("2"))
    ensures IntroducedAt(FilesAt(view, TwoCommits(first, second), flat, ["b"]), ["n2", "n1"], 1)
  {
    assert SeenIn(view, second, ["b"]) == Some("2");
    ShownAt(view, TwoCommits(first, second), flat, ["b"], "n2");
    BlameNamesOlder(view, TwoCommits(first, second), flat, ["b"], "n2", "n1");
  }
}
