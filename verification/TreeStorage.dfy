/**
 * The table of directory trees and the operations that walk it.  Every method reads directories only
 * through `GetTree`, and each is proved against the functions on tree hashes in `MerkleTrees` and
 * `TreeMerge`.
 */
module TreeStorage {
  import opened Wrappers
  import opened Paths
  import opened MerkleTrees
  import opened TreeMerge
  import opened TreeViews

  /** `m` adds to `acc` exactly the files seen below the listed children of `h`, with `prefix` put in front. */
  ghost predicate Lists(view: TreeTable, m: FlatTree, acc: FlatTree, prefix: Path, h: TreeHash, children: set<Name>,
                        levels: nat) {
    forall k :: Look(m, k) == (if Listed(view, k, prefix, h, children, levels) then SeenIn(view, h, k[|prefix|..]) else Look(acc, k))
  }

  ghost predicate Listed(view: TreeTable, k: Path, prefix: Path, h: TreeHash, children: set<Name>, levels: nat) {
    && prefix < k && |k| <= |prefix| + levels
    && k[|prefix|] in children
    && SeenIn(view, h, k[|prefix|..]).Some?
  }

  class TreeStore {
    var trees: TreeTable

    ghost predicate Valid()
      reads this
    {
      ContentAddressed(trees)
    }

    constructor ()
      ensures Valid() && trees == map[]
    {
      trees := map[];
    }

    /** Reads one directory; the caller gets its own copy of the entries. */
    method GetTree(h: TreeHash) returns (r: Result<Dir>)
      ensures r == if h in trees then Success(trees[h]) else Failure(TreeNotFound)
    {
      if h !in trees {
        return Failure(TreeNotFound);
      }
      r := Success(trees[h]);
    }

    /** Upserts one directory under its hash. */
    method WriteTree(entries: Dir) returns (h: TreeHash)
      requires Valid()
      modifies this
      ensures Valid() && h == Digest(entries) && trees == old(trees)[h := entries]
    {
      h := Digest(entries);
      trees := trees[h := entries];
    }

    /** Builds the tree edited at one path; a missing directory on the way leaves the table alone. */
    method WriteHierarchy(root: Option<TreeHash>, path: Path, entry: Option<Entry>) returns (r: Result<TreeHash>)
      requires Valid() && path != []
      modifies this
      ensures Valid()
      ensures r.Success? <==> old(SpineStored(trees, root, path))
      ensures r.Success? ==> r.value == Edit(root, path, entry) && r.value in trees
      ensures r.Failure? ==> r.error == TreeNotFound && trees == old(trees)
      ensures Grown(old(trees), trees)
      ensures old(Closed(trees)) && (IsTree(entry) ==> old(entry.value.tree in trees)) ==> Closed(trees)
      decreases |path|
    {
      var name := path[0];
      var entries: Dir := map[];
      if root.Some? {
        entries :- GetTree(root.value);
      }
      if |path| > 1 {
        var below := SubTree(Get(entries, name));
        var newSubTree :- WriteHierarchy(below, path[1..], entry);
        entries := entries[name := Tree(newSubTree)];
      } else if entry.Some? {
        entries := entries[name := entry.value];
      } else {
        entries := entries - {name};
      }
      var h := WriteTree(entries);
      r := Success(h);
    }

    /** Finds the hash at a path. */
    method ResolvePathToHash(h: TreeHash, path: Path) returns (r: Result<Option<Target>>)
      requires path != []
      ensures r.Success? <==> SpineStored(trees, Some(h), path)
      ensures r.Success? ==> r.value == ResolveIn(trees, h, path)
      ensures r.Failure? ==> r.error == TreeNotFound
      decreases |path|
    {
      var entries :- GetTree(h);
      var entry := Get(entries, path[0]);
      if entry.None? {
        return Success(None);
      }
      if |path| > 1 {
        if !entry.value.Tree? {
          return Success(None);
        }
        r := ResolvePathToHash(entry.value.tree, path[1..]);
      } else if entry.value.Tree? {
        r := Success(Some(Directory(entry.value.tree)));
      } else {
        r := Success(Some(File(Ref(entry.value))));
      }
    }

    /** Adds to `acc` every file of `h`, down to the depth limit, with `prefix` put in front. */
    method FlattenTree(h: TreeHash, prefix: Path, acc: FlatTree, depth: nat) returns (r: Result<FlatTree>)
      requires depth <= LEVELS
      ensures r.Success? <==> StoredTo(trees, h, LEVELS - depth)
      ensures r.Success? ==> Lists(trees, r.value, acc, prefix, h, DirIn(trees, h).Keys, LEVELS - depth)
      ensures r.Failure? ==> r.error == TreeNotFound
      decreases LEVELS - depth
    {
      if depth > 100 {
        return Success(acc);
      }
      var entries :- GetTree(h);
      var result: FlatTree := acc;
      var pending := entries.Keys;
      while pending != {}
        invariant pending <= entries.Keys
        invariant Lists(trees, result, acc, prefix, h, entries.Keys - pending, LEVELS - depth)
        invariant forall n | n in entries.Keys - pending && entries[n].Tree? ::
                    StoredTo(trees, entries[n].tree, LEVELS - depth - 1)
        decreases pending
      {
        var name :| name in pending;
        ghost var before: FlatTree, done := result, entries.Keys - pending;
        pending := pending - {name};
        var key := prefix + [name];
        var entry := entries[name];
        if entry.Tree? {
          result :- FlattenTree(entry.tree, key, result, depth + 1);
        } else {
          result := result[key := Ref(entry)];
        }
        ListsOneMore(trees, result, before, acc, prefix, h, done, name, LEVELS - depth);
        assert entries.Keys - pending == done + {name};
      }
      assert entries.Keys - pending == DirIn(trees, h).Keys;
      r := Success(result);
    }

    /** The flat tree of a root, as the readers of the repository see it. */
    method Flatten(h: TreeHash) returns (r: Result<FlatTree>)
      ensures r.Success? <==> StoredTo(trees, h, LEVELS)
      ensures r.Success? ==> r.value == FlatIn(trees, h, LEVELS)
      ensures r.Success? && Valid() ==> r.value == Flat(h, LEVELS)
      ensures r.Failure? ==> r.error == TreeNotFound
    {
      r := FlattenTree(h, [], map[], 0);
      if r.Success? {
        ListsAll(trees, r.value, h, LEVELS);
        if Valid() {
          StoredIsRight(trees, h, LEVELS);
          FlatInIsFlat(trees, h, LEVELS);
        }
      }
    }

    /** The hierarchical three-way merge; directories it creates are added to the table. */
    method MergeTrees(base: Option<TreeHash>, source: TreeHash, target: TreeHash) returns (r: Result<Merged>)
      requires Valid()
      modifies this
      ensures Valid() && Grown(old(trees), trees)
      ensures r.Success? ==> Merge(base, source, target) == Some(r.value)
      ensures r.Failure? ==> r.error == TreeNotFound
      ensures old(MergeReady(trees, base, source, target)) ==>
                && Closed(trees)
                && (r.Success? <==> Merge(base, source, target).Some?)
                && (r.Success? ==> r.value.hash in trees)
      decreases source, 2
    {
      if source == target { return Success(Merged(source, {})); }
      if Some(source) == base { return Success(Merged(target, {})); }
      if Some(target) == base { return Success(Merged(source, {})); }

      if base.None? { return Failure(TreeNotFound); }
      var baseEntries :- GetTree(base.value);
      var sourceEntries :- GetTree(source);
      var targetEntries :- GetTree(target);

      var merged :- MergeEntries(base, source, target, baseEntries.Keys + sourceEntries.Keys + targetEntries.Keys);
      AssembleMerge(base, source, target, merged.0, merged.1);
      var h := WriteTree(merged.0);
      r := Success(Merged(h, merged.1));
    }

    /** The merge loop over all names, in any order. */
    method MergeEntries(base: Option<TreeHash>, source: TreeHash, target: TreeHash, names: set<Name>)
      returns (r: Result<(Dir, set<Path>)>)
      requires Valid() && names == Names(base, source, target)
      modifies this
      ensures Valid() && Grown(old(trees), trees)
      ensures r.Success? ==> MergedSoFar(base, source, target, names, r.value.0, r.value.1)
      ensures r.Failure? ==> r.error == TreeNotFound
      ensures old(MergeReady(trees, base, source, target)) ==>
                && Closed(trees)
                && (r.Success? ==> TreesIn(r.value.0, trees))
                && (r.Failure? ==> exists n :: n in names && MergeName(base, source, target, n).None?)
      decreases source, 1
    {
      ghost var ready := MergeReady(trees, base, source, target);
      var pending := names;
      var mergedEntries: Dir, allConflicts: set<Path> := map[], {};
      while pending != {}
        invariant Valid() && pending <= names && Grown(old(trees), trees)
        invariant ready ==> MergeReady(trees, base, source, target) && TreesIn(mergedEntries, trees)
        invariant MergedSoFar(base, source, target, names - pending, mergedEntries, allConflicts)
        decreases pending
      {
        var name :| name in pending;
        ghost var done, entriesBefore, conflictsBefore := names - pending, mergedEntries, allConflicts;
        pending := pending - {name};
        var res := MergeEntry(base, source, target, name);
        if res.Failure? {
          return Failure(res.error);
        }
        var o := res.value;
        if o.entry.Some? { mergedEntries := mergedEntries[name := o.entry.value]; }
        allConflicts := allConflicts + PrefixAll(name, o.conflicts);
        MergedOneMore(base, source, target, done, entriesBefore, conflictsBefore, name, mergedEntries, allConflicts);
        assert names - pending == done + {name};
      }
      assert names - pending == names;
      r := Success((mergedEntries, allConflicts));
    }

    /** One round of the merge loop: what becomes of one name. */
    method MergeEntry(base: Option<TreeHash>, source: TreeHash, target: TreeHash, name: Name)
      returns (r: Result<Outcome>)
      requires Valid()
      modifies this
      ensures Valid() && Grown(old(trees), trees)
      ensures r.Success? ==> MergeName(base, source, target, name) == Some(r.value)
      ensures r.Failure? ==> r.error == TreeNotFound
      ensures old(MergeReady(trees, base, source, target)) ==>
                && Closed(trees)
                && (r.Success? <==> MergeName(base, source, target, name).Some?)
                && (r.Success? && IsTree(r.value.entry) ==> r.value.entry.value.tree in trees)
      decreases source, 0
    {
      var b, s, t := Get(Entries(base), name), Get(source.entries, name), Get(target.entries, name);
      if s == t { return Success(Outcome(s, {})); }
      if s == b { return Success(Outcome(t, {})); }
      if t == b { return Success(Outcome(s, {})); }
      if IsTree(s) && IsTree(t) {
        var res :- MergeTrees(SubTree(b), s.value.tree, t.value.tree);
        r := Success(Outcome(Some(Tree(res.hash)), res.conflicts));
      } else {
        r := Success(Outcome(t, {[]}));
      }
    }

    /** Marks `h` and the directories seen from it, down to the depth limit, not entering marked ones. */
    method MarkTreeReachable(h: TreeHash, visited: set<TreeHash>, depth: nat) returns (r: Result<set<TreeHash>>)
      requires depth <= LEVELS
      ensures Closed(trees) && h in trees ==> r.Success?
      ensures r.Success? ==> MarkedFrom(trees, h, LEVELS - depth, visited, r.value)
      ensures r.Failure? ==> r.error == TreeNotFound
      decreases LEVELS - depth
    {
      if h in visited || depth > 100 {
        return Success(visited);
      }
      var marked := visited + {h};
      var entries :- GetTree(h);
      var pending := entries.Keys;
      while pending != {}
        invariant pending <= entries.Keys
        invariant MarkedSoFar(trees, h, LEVELS - depth, visited, entries.Keys - pending, marked)
        decreases pending
      {
        var name :| name in pending;
        ghost var before, done := marked, entries.Keys - pending;
        pending := pending - {name};
        if entries[name].Tree? {
          marked :- MarkTreeReachable(entries[name].tree, marked, depth + 1);
          MarkedOneMore(trees, h, LEVELS - depth, visited, done, before, name, marked);
        }
        assert entries.Keys - pending == done + {name};
      }
      assert entries.Keys - pending == entries.Keys;
      r := Success(marked);
    }
  }

  /**
   * What one walk from `h` adds to the marked directories: `h` itself, and rows seen from `h` within
   * `levels` levels; if no walk from `h` is longer, then everything seen from the newly marked ones.
   */
  ghost predicate MarkedFrom(view: TreeTable, h: TreeHash, levels: nat, before: set<TreeHash>, after: set<TreeHash>) {
    && before <= after
    && (forall t | t in after - before :: t in view && Reaches(view, h, t, levels))
    && (levels > 0 ==> h in after)
    && (WithinView(view, h, levels) ==> Expanded(view, after - before, after))
  }

  /** The marks once the children in `done` have been walked. */
  ghost predicate MarkedSoFar(view: TreeTable, h: TreeHash, levels: nat, before: set<TreeHash>, done: set<Name>,
                              marked: set<TreeHash>) {
    && before + {h} <= marked
    && (forall t | t in marked - before :: t in view && Reaches(view, h, t, levels))
    && (WithinView(view, h, levels) ==> Expanded(view, marked - before - {h}, marked) && ChildrenIn(view, h, done, marked))
  }

  lemma MarkedOneMore(view: TreeTable, h: TreeHash, levels: nat, before: set<TreeHash>, done: set<Name>,
                      marked: set<TreeHash>, n: Name, marked': set<TreeHash>)
    requires levels > 0 && IsTree(Get(DirIn(view, h), n))
    requires MarkedSoFar(view, h, levels, before, done, marked)
    requires MarkedFrom(view, DirIn(view, h)[n].tree, levels - 1, marked, marked')
    ensures MarkedSoFar(view, h, levels, before, done + {n}, marked')
  {
    forall t | t in marked' - before ensures t in view && Reaches(view, h, t, levels) {
      if t !in marked { ReachesChild(view, h, n, t, levels); }
    }
    if WithinView(view, h, levels) {
      forall t | t in marked' - before - {h} ensures ChildrenIn(view, t, DirIn(view, t).Keys, marked') {
        if t in marked { assert ChildrenIn(view, t, DirIn(view, t).Keys, marked); }
      }
    }
  }

  /** All directories seen directly in a member of `ts` are in `marked`. */
  ghost predicate Expanded(view: TreeTable, ts: set<TreeHash>, marked: set<TreeHash>) {
    forall t | t in ts :: ChildrenIn(view, t, DirIn(view, t).Keys, marked)
  }

  ghost predicate ChildrenIn(view: TreeTable, t: TreeHash, names: set<Name>, marked: set<TreeHash>) {
    forall n | n in names && IsTree(Get(DirIn(view, t), n)) :: DirIn(view, t)[n].tree in marked
  }

  function PrefixAll(n: Name, conflicts: set<Path>): set<Path> {
    set c | c in conflicts :: [n] + c
  }

  lemma InPrefixAll(n: Name, conflicts: set<Path>, p: Path)
    ensures p in PrefixAll(n, conflicts) <==> p != [] && p[0] == n && p[1..] in conflicts
  {
    if p in PrefixAll(n, conflicts) {
      var c :| c in conflicts && p == [n] + c;
      assert p[1..] == c;
    }
    if p != [] && p[0] == n && p[1..] in conflicts {
      assert p == [n] + p[1..];
    }
  }

  /** No row is lost or changed. */
  ghost predicate Grown(before: TreeTable, after: TreeTable) {
    forall h | h in before :: h in after && after[h] == before[h]
  }

  /** The table is closed and holds the directories to be merged. */
  ghost predicate MergeReady(trees: TreeTable, b: Option<TreeHash>, s: TreeHash, t: TreeHash) {
    Closed(trees) && s in trees && t in trees && (b.Some? ==> b.value in trees)
  }

  ghost predicate TreesIn(entries: Dir, trees: TreeTable) {
    forall n | IsTree(Get(entries, n)) :: entries[n].tree in trees
  }

  /** The merged entries and the conflict list once the names in `done` have been treated. */
  ghost predicate MergedSoFar(b: Option<TreeHash>, s: TreeHash, t: TreeHash, done: set<Name>,
                              entries: Dir, conflicts: set<Path>) {
    && (forall n | n in done :: MergeName(b, s, t, n).Some?)
    && (forall n :: Get(entries, n) == if n in done then MergeName(b, s, t, n).value.entry else None)
    && (forall p :: p in conflicts <==>
                    p != [] && p[0] in done && p[1..] in MergeName(b, s, t, p[0]).value.conflicts)
  }

  lemma MergedOneMore(b: Option<TreeHash>, s: TreeHash, t: TreeHash, done: set<Name>, entries: Dir,
                      conflicts: set<Path>, n: Name, entries': Dir, conflicts': set<Path>)
    requires MergedSoFar(b, s, t, done, entries, conflicts) && n !in done
    requires MergeName(b, s, t, n).Some?
    requires var o := MergeName(b, s, t, n).value;
             && entries' == (if o.entry.Some? then entries[n := o.entry.value] else entries)
             && conflicts' == conflicts + PrefixAll(n, o.conflicts)
    ensures MergedSoFar(b, s, t, done + {n}, entries', conflicts')
  {
    assert Get(entries, n) == None;
    forall p
      ensures p in conflicts' <==>
              p != [] && p[0] in done + {n} && p[1..] in MergeName(b, s, t, p[0]).value.conflicts
    {
      InPrefixAll(n, MergeName(b, s, t, n).value.conflicts, p);
    }
  }

  lemma AssembleMerge(b: Option<TreeHash>, s: TreeHash, t: TreeHash, entries: Dir, conflicts: set<Path>)
    requires Differ(b, s, t) && b.Some?
    requires MergedSoFar(b, s, t, Names(b, s, t), entries, conflicts)
    ensures Merge(b, s, t) == Some(Merged(Digest(entries), conflicts))
  {
    assert Merge(b, s, t).Some?;
    var m := Merge(b, s, t).value;
    forall n ensures Get(m.hash.entries, n) == Get(entries, n) {
      MergedEntry(b, s, t, n);
    }
    SameEntries(m.hash, Digest(entries));
    forall p ensures p in m.conflicts <==> p in conflicts {
      if p != [] {
        assert p == [p[0]] + p[1..];
        MergedEntry(b, s, t, p[0]);
        assert p[0] !in Names(b, s, t) ==> MergeName(b, s, t, p[0]).value.conflicts == {};
      }
    }
    assert m.conflicts == conflicts;
  }

  lemma ListsOneMore(view: TreeTable, m: FlatTree, before: FlatTree, acc: FlatTree, prefix: Path, h: TreeHash,
                     done: set<Name>, name: Name, levels: nat)
    requires levels > 0 && name in DirIn(view, h) && name !in done
    requires Lists(view, before, acc, prefix, h, done, levels)
    requires if DirIn(view, h)[name].Tree?
             then var sub := DirIn(view, h)[name].tree;
                  Lists(view, m, before, prefix + [name], sub, DirIn(view, sub).Keys, levels - 1)
             else m == before[prefix + [name] := Ref(DirIn(view, h)[name])]
    ensures Lists(view, m, acc, prefix, h, done + {name}, levels)
  {
    var e, key := DirIn(view, h)[name], prefix + [name];
    forall k
      ensures Look(m, k) == if Listed(view, k, prefix, h, done + {name}, levels) then SeenIn(view, h, k[|prefix|..]) else Look(acc, k)
    {
      if prefix < k && k[|prefix|] == name {
        var q := k[|prefix|..];
        assert q[1..] == k[|key|..];
        assert key <= k by { assert k == prefix + q; assert q == [name] + q[1..]; }
        assert !Listed(view, k, prefix, h, done, levels);
        if !e.Tree? {
          assert |q| == 1 ==> k == key;
        }
      }
    }
  }

  lemma ListsAll(view: TreeTable, m: FlatTree, h: TreeHash, levels: nat)
    requires Lists(view, m, map[], [], h, DirIn(view, h).Keys, levels)
    ensures m == FlatIn(view, h, levels)
  {
    FlatInIsSeen(view, h, levels);
    forall k ensures Look(m, k) == Look(FlatIn(view, h, levels), k) {
      assert k[0..] == k;
    }
    SameFlatTree(m, FlatIn(view, h, levels));
  }
}
