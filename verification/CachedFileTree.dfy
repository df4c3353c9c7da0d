/**
 * The file operations over the tree cache as it is.  `FileTree` and `FileHistory` take directories as
 * values; here the same operations read and edit cached objects, and they come to the same trees as long as
 * no edit or lookup finds on its way a directory that reads wrongly.
 */
module CachedFileTree {
  import opened Wrappers
  import opened Paths
  import opened MerkleTrees
  import opened TreeViews
  import opened TreeCache
  import opened FileTree
  import opened FileHistory

  /** The path edits of an operation that does not throw. */
  function EditsOf(op: FileOp, root: Option<TreeHash>): seq<PathEdit>
    requires WellFormed(op) && Apply(op, root).Some?
  {
    match op
    case Write(path, file) => [PathEdit(path, Some(Blob(file)))]
    case Delete(path) => [PathEdit(path, None)]
    case Rename(from, to) => [PathEdit(from, None), PathEdit(to, Some(Blob(Visible(root, from).value)))]
    case Copy(from, to) => [PathEdit(to, Some(Blob(Visible(root, from).value)))]
    case AddSubRepo(path, repo) => [PathEdit(path, Some(SubRepo(repo)))]
  }

  /** The operation throws, or each of its edits is clean. */
  ghost predicate CleanOp(op: FileOp, root: Option<TreeHash>)
    requires WellFormed(op)
  {
    Apply(op, root).Some? ==> CleanRun(root, EditsOf(op, root))
  }

  /** Looks a file up by walking the tree as the cache shows it. */
  method LookUp(store: CachedTreeStore, root: Option<TreeHash>, path: Path) returns (file: Option<FileId>)
    requires store.Faithful(root)
    ensures file == Visible(root, path)
  {
    file := None;
    if root.Some? && |path| <= LEVELS {
      store.SeenIsAt(root.value, path);
      file := store.Seen(root.value, path);
    }
  }

  lemma OneEdit(root: Option<TreeHash>, a: PathEdit)
    ensures CleanRun(root, [a]) <==> a.path != [] && !IsTree(a.entry) && Clean(root, a.path, a.entry)
  {
  }

  lemma TwoEdits(root: Option<TreeHash>, a: PathEdit, b: PathEdit)
    requires CleanRun(root, [a, b])
    ensures a.path != [] && CleanRun(root, [a]) && CleanRun(Some(Edit(root, a.path, a.entry)), [b])
  {
    assert [a, b][1..] == [b];
  }

  /** The two edits of a move. */
  method Rename(store: CachedTreeStore, root: Option<TreeHash>, from: Path, to: Path, file: FileId) returns (h: TreeHash)
    requires from != [] && to != [] && store.Faithful(root)
    requires CleanRun(root, [PathEdit(from, None), PathEdit(to, Some(Blob(file)))])
    modifies store, store.cache.Values
    ensures h == Edit(Some(Edit(root, from, None)), to, Some(Blob(file))) && store.Faithful(Some(h))
    ensures forall x | x in store.cache :: store.cache[x] in old(store.cache.Values) || fresh(store.cache[x])
  {
    TwoEdits(root, PathEdit(from, None), PathEdit(to, Some(Blob(file))));
    OneEdit(root, PathEdit(from, None));
    var intermediate := store.EditFaithful(root, from, None);
    OneEdit(Some(intermediate), PathEdit(to, Some(Blob(file))));
    h := store.EditFaithful(Some(intermediate), to, Some(Blob(file)));
  }

  /** A clean operation on a tree that reads right gives the right tree, and one that reads right. */
  method RunOp(store: CachedTreeStore, op: FileOp, root: Option<TreeHash>) returns (r: Option<TreeHash>)
    requires WellFormed(op) && store.Faithful(root) && CleanOp(op, root)
    modifies store, store.cache.Values
    ensures r == Apply(op, root) && (r.Some? ==> store.Faithful(r))
    ensures forall h | h in store.cache :: store.cache[h] in old(store.cache.Values) || fresh(store.cache[h])
  {
    var h: TreeHash;
    match op {
      case Write(path, file) =>
        OneEdit(root, PathEdit(path, Some(Blob(file))));
        h := store.EditFaithful(root, path, Some(Blob(file)));
      case Delete(path) =>
        if root.None? { return None; }
        OneEdit(root, PathEdit(path, None));
        h := store.EditFaithful(root, path, None);
      case Rename(from, to) =>
        var file := LookUp(store, root, from);
        if file.None? { return None; }
        h := Rename(store, root, from, to, file.value);
      case Copy(from, to) =>
        var file := LookUp(store, root, from);
        if file.None? { return None; }
        OneEdit(root, PathEdit(to, Some(Blob(file.value))));
        h := store.EditFaithful(root, to, Some(Blob(file.value)));
      case AddSubRepo(path, repo) =>
        OneEdit(root, PathEdit(path, Some(SubRepo(repo))));
        h := store.EditFaithful(root, path, Some(SubRepo(repo)));
    }
    r := Some(h);
  }

  /** Every operation of the log applies to the tree it finds, and its edits are clean there. */
  ghost predicate CleanLog(log: seq<Done>, root: Option<TreeHash>) {
    forall k | 0 <= k < |log| :: CleanAt(log, root, k)
  }

  ghost predicate CleanAt(log: seq<Done>, root: Option<TreeHash>, k: nat)
    requires k < |log|
  {
    var op, before := log[k].op, Replay(log[..k], root);
    WellFormed(op) && Apply(op, before).Some? && CleanOp(op, before)
  }

  /** The logged operations, carried out one after the other on cached objects, come to the replayed tree. */
  method RunLog(store: CachedTreeStore, log: seq<Done>, root: Option<TreeHash>) returns (head: Option<TreeHash>)
    requires store.Faithful(root) && CleanLog(log, root)
    modifies store, store.cache.Values
    ensures head == Replay(log, root) && store.Faithful(head)
  {
    head := root;
    for i := 0 to |log|
      invariant head == Replay(log[..i], root) && store.Faithful(head)
      invariant forall h | h in store.cache :: store.cache[h] in old(store.cache.Values) || fresh(store.cache[h])
    {
      assert CleanAt(log, root, i);
      assert log[..i + 1][..i] == log[..i];
      head := RunOp(store, log[i].op, head);
    }
    assert log[..|log|] == log;
  }

  // ---------------------------------------------------------------- any calls in any order

  /** The edits of an operation; one that throws makes none. */
  function RootEditsOf(op: FileOp, root: Option<TreeHash>): seq<RootEdit>
    requires WellFormed(op)
  {
    if Apply(op, root).None? then []
    else
      match op
      case Write(path, file) => [RootEdit(root, path, Some(Blob(file)))]
      case Delete(path) => [RootEdit(root, path, None)]
      case Rename(from, to) =>
        [RootEdit(root, from, None), RootEdit(Some(Edit(root, from, None)), to, Some(Blob(Visible(root, from).value)))]
      case Copy(from, to) => [RootEdit(root, to, Some(Blob(Visible(root, from).value)))]
      case AddSubRepo(path, repo) => [RootEdit(root, path, Some(SubRepo(repo)))]
  }

  /** Neither the lookup of a move or copy nor any edit meets a directory that reads wrongly. */
  predicate SafeOp(st: Status, op: FileOp, root: Option<TreeHash>)
    requires WellFormed(op)
  {
    && ((op.Rename? || op.Copy?) && root.Some? ==> Safe(st, root, op.from))
    && SafeRun(st, RootEditsOf(op, root))
  }

  function AfterOp(st: Status, op: FileOp, root: Option<TreeHash>): Status
    requires WellFormed(op)
  {
    AfterRun(st, RootEditsOf(op, root))
  }

  method LookUpSafely(store: CachedTreeStore, root: Option<TreeHash>, path: Path, ghost st: Status) returns (file: Option<FileId>)
    requires path != [] && store.Is(st) && (root.Some? ==> Safe(st, root, path))
    ensures file == Visible(root, path)
  {
    file := None;
    if root.Some? && |path| <= LEVELS {
      ghost var view := store.View();
      forall d | d in OldSpine(root, path) ensures d in view && view[d] == d.entries {
        assert ReadAs(st, d, store.Reads(d));
      }
      RightSpineSeen(view, root.value, path);
      file := store.Seen(root.value, path);
    }
  }

  lemma OneSafeEdit(st: Status, a: RootEdit)
    ensures SafeRun(st, [a]) <==> a.path != [] && Safe(st, a.root, a.path)
    ensures a.path != [] ==> AfterRun(st, [a]) == After(st, a.root, a.path, a.entry)
  {
  }

  lemma TwoSafeEdits(st: Status, a: RootEdit, b: RootEdit)
    requires a.path != [] && b.path != []
    ensures var between := After(st, a.root, a.path, a.entry);
            && (SafeRun(st, [a, b]) <==> Safe(st, a.root, a.path) && Safe(between, b.root, b.path))
            && AfterRun(st, [a, b]) == After(between, b.root, b.path, b.entry)
  {
    assert [a, b][1..] == [b];
    OneSafeEdit(After(st, a.root, a.path, a.entry), b);
  }

  /** A safe operation on any root gives the right tree, and what reads wrongly afterwards is known. */
  method RunSafely(store: CachedTreeStore, op: FileOp, root: Option<TreeHash>, ghost st: Status) returns (r: Option<TreeHash>)
    requires WellFormed(op) && store.Is(st) && SafeOp(st, op, root)
    modifies store, store.cache.Values
    ensures r == Apply(op, root) && store.Is(AfterOp(st, op, root))
    ensures forall h | h in store.cache :: store.cache[h] in old(store.cache.Values) || fresh(store.cache[h])
  {
    match op {
      case Write(path, file) =>
        r := EditOnce(store, root, path, Some(Blob(file)), st);
      case Delete(path) =>
        if root.None? { return None; }
        r := EditOnce(store, root, path, None, st);
      case Rename(from, to) =>
        var file := LookUpSafely(store, root, from, st);
        if file.None? { return None; }
        r := RenameSafely(store, root, from, to, file.value, st);
      case Copy(from, to) =>
        var file := LookUpSafely(store, root, from, st);
        if file.None? { return None; }
        r := EditOnce(store, root, to, Some(Blob(file.value)), st);
      case AddSubRepo(path, repo) =>
        r := EditOnce(store, root, path, Some(SubRepo(repo)), st);
    }
  }

  method EditOnce(store: CachedTreeStore, root: Option<TreeHash>, path: Path, entry: Option<Entry>, ghost st: Status)
    returns (r: Option<TreeHash>)
    requires store.Is(st) && SafeRun(st, [RootEdit(root, path, entry)])
    modifies store, store.cache.Values
    ensures path != [] && r == Some(Edit(root, path, entry)) && store.Is(AfterRun(st, [RootEdit(root, path, entry)]))
    ensures forall h | h in store.cache :: store.cache[h] in old(store.cache.Values) || fresh(store.cache[h])
  {
    OneSafeEdit(st, RootEdit(root, path, entry));
    var h := store.EditSafely(root, path, entry, st);
    r := Some(h);
  }

  method RenameSafely(store: CachedTreeStore, root: Option<TreeHash>, from: Path, to: Path, file: FileId, ghost st: Status)
    returns (r: Option<TreeHash>)
    requires from != [] && to != [] && store.Is(st)
    requires SafeRun(st, [RootEdit(root, from, None), RootEdit(Some(Edit(root, from, None)), to, Some(Blob(file)))])
    modifies store, store.cache.Values
    ensures r == Some(Edit(Some(Edit(root, from, None)), to, Some(Blob(file))))
    ensures store.Is(AfterRun(st, [RootEdit(root, from, None), RootEdit(Some(Edit(root, from, None)), to, Some(Blob(file)))]))
    ensures forall h | h in store.cache :: store.cache[h] in old(store.cache.Values) || fresh(store.cache[h])
  {
    TwoSafeEdits(st, RootEdit(root, from, None), RootEdit(Some(Edit(root, from, None)), to, Some(Blob(file))));
    var intermediate := store.EditSafely(root, from, None, st);
    var h := store.EditSafely(Some(intermediate), to, Some(Blob(file)), After(st, root, from, None));
    r := Some(h);
  }

  datatype RootCall = RootCall(op: FileOp, root: Option<TreeHash>)

  predicate SafeCalls(st: Status, calls: seq<RootCall>)
    decreases |calls|
  {
    calls == [] ||
    (&& WellFormed(calls[0].op) && SafeOp(st, calls[0].op, calls[0].root)
     && SafeCalls(AfterOp(st, calls[0].op, calls[0].root), calls[1..]))
  }

  predicate RightResult(c: RootCall, r: Option<TreeHash>) {
    WellFormed(c.op) && r == Apply(c.op, c.root)
  }

  /**
   * Operations of any branches, one after the other, each on the root it found, whether or not its commit
   * goes through.  As long as they are safe, every one comes to the tree that `Apply` says.
   */
  method RunCalls(store: CachedTreeStore, calls: seq<RootCall>, ghost st: Status) returns (results: seq<Option<TreeHash>>)
    requires store.Is(st) && SafeCalls(st, calls)
    modifies store, store.cache.Values
    ensures |results| == |calls| && forall i | 0 <= i < |calls| :: RightResult(calls[i], results[i])
  {
    results := [];
    ghost var now := st;
    for i := 0 to |calls|
      invariant |results| == i && store.Is(now) && SafeCalls(now, calls[i..])
      invariant forall j | 0 <= j < i :: RightResult(calls[j], results[j])
      invariant forall h | h in store.cache :: store.cache[h] in old(store.cache.Values) || fresh(store.cache[h])
    {
      var c := calls[i];
      assert calls[i..][0] == c && calls[i..][1..] == calls[i + 1..];
      var r := RunSafely(store, c.op, c.root, now);
      now := AfterOp(now, c.op, c.root);
      results := results + [r];
    }
  }
}
