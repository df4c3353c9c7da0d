/**
 * The hierarchical merge over the tree cache as it is.  It edits no cached object, so it is right whenever
 * base, source and target read right; but the base of a merge is normally a root that has been edited since,
 * and then it reads as the newer tree.
 */
module CachedMerge {
  import opened Wrappers
  import opened Paths
  import opened MerkleTrees
  import opened TreeMerge
  import opened TreeViews
  import opened TreeStorage
  import opened TreeCache

  /** Reads one directory; readers see the same afterwards. */
  method Read(store: CachedTreeStore, h: TreeHash) returns (entries: Option<Dir>)
    modifies store`cache
    ensures entries == old(store.Reads(h)) && forall k :: store.Reads(k) == old(store.Reads(k))
  {
    var o := store.GetTree(h);
    entries := if o.Some? then Some(o.value.entries) else None;
  }

  lemma FaithfulChild(store: CachedTreeStore, h: TreeHash, n: Name)
    requires store.Faithful(Some(h)) && IsTree(Get(h.entries, n))
    ensures store.Faithful(Some(h.entries[n].tree))
  {
    forall d | InTree(Some(h.entries[n].tree), d) ensures InTree(Some(h), d) {
      InsideChild(h, n, d);
    }
  }

  lemma FaithfulRoot(store: CachedTreeStore, h: TreeHash)
    requires store.Faithful(Some(h))
    ensures store.Reads(h) == Some(h.entries)
  {
    InsideItself(h);
  }

  /** What becomes of a name, given the entries that are read for it; directories on both sides are merged. */
  predicate DecidedAs(b: Dir, s: Dir, t: Dir, n: Name, o: Outcome) {
    match Decide(Get(b, n), Get(s, n), Get(t, n))
    case Take(e) => o == Outcome(e, {})
    case Clash => o == Outcome(Get(t, n), {[]})
    case Descend => true
  }

  /** The merged directory and the conflicts hold the outcome of the name. */
  ghost predicate Holds(entries: Dir, conflicts: set<Path>, n: Name, o: Outcome) {
    Get(entries, n) == o.entry && forall c :: [n] + c in conflicts <==> c in o.conflicts
  }

  ghost predicate DecidedIn(b: Dir, s: Dir, t: Dir, n: Name, entries: Dir, conflicts: set<Path>) {
    exists o :: DecidedAs(b, s, t, n, o) && Holds(entries, conflicts, n, o)
  }

  /** A misread base decides a name as the true one would exactly when it agrees with each side as often. */
  lemma DecideExactlyWhen(b: Option<Entry>, seen: Option<Entry>, s: Option<Entry>, t: Option<Entry>)
    ensures Decide(seen, s, t) == Decide(b, s, t) <==> s == t || ((seen == s <==> b == s) && (seen == t <==> b == t))
  {
  }

  /** The merge fails before it looks at the names, or some name holds directories on both sides. */
  predicate MayFail(base: Option<TreeHash>, b: Option<Dir>, s: Dir, t: Option<Dir>) {
    base.None? || b.None? || t.None? || exists n :: n in s && Decide(Get(b.value, n), Get(s, n), Get(t.value, n)).Descend?
  }

  method MergeTrees(store: CachedTreeStore, base: Option<TreeHash>, source: TreeHash, target: TreeHash)
    returns (r: Option<Merged>)
    requires store.Faithful(Some(source))
    modifies store
    ensures forall h | old(store.Reads(h)) == Some(h.entries) :: store.Reads(h) == Some(h.entries)
    ensures old(store.Faithful(base) && store.Faithful(Some(target))) ==> r == Merge(base, source, target)
    ensures Differ(base, source, target) && r.Some? ==>
              base.Some? && old(store.Reads(base.value)).Some? && old(store.Reads(target)).Some?
              && forall n :: DecidedIn(old(store.Reads(base.value)).value, source.entries, old(store.Reads(target)).value, n,
                                       r.value.hash.entries, r.value.conflicts)
    ensures r.None? ==> Differ(base, source, target)
                        && MayFail(base, if base.Some? then old(store.Reads(base.value)) else None, source.entries, old(store.Reads(target)))
    decreases source, 3
  {
    if source == target { return Some(Merged(source, {})); }
    if Some(source) == base { return Some(Merged(target, {})); }
    if Some(target) == base { return Some(Merged(source, {})); }
    ghost var ready := store.Faithful(base) && store.Faithful(Some(target));
    if ready && base.Some? {
      FaithfulRoot(store, base.value);
      FaithfulRoot(store, target);
    }
    FaithfulRoot(store, source);

    if base.None? { return None; }
    var b := Read(store, base.value);
    if b.None? { return None; }
    var s := Read(store, source);
    var t := Read(store, target);
    if t.None? { return None; }

    r := MergeRead(store, base, source, target, b.value, t.value, ready);
  }

  /** Merges the entries that have been read, and writes the merged directory. */
  method MergeRead(store: CachedTreeStore, base: Option<TreeHash>, source: TreeHash, target: TreeHash, b: Dir, t: Dir,
                   ghost ready: bool)
    returns (r: Option<Merged>)
    requires store.Faithful(Some(source)) && Differ(base, source, target) && base.Some?
    requires ready ==> store.Faithful(base) && store.Faithful(Some(target)) && b == Entries(base) && t == target.entries
    modifies store
    ensures forall h | old(store.Reads(h)) == Some(h.entries) :: store.Reads(h) == Some(h.entries)
    ensures ready ==> r == Merge(base, source, target)
    ensures r.Some? ==> forall n :: DecidedIn(b, source.entries, t, n, r.value.hash.entries, r.value.conflicts)
    ensures r.None? ==> exists n :: n in source.entries && Decide(Get(b, n), Get(source.entries, n), Get(t, n)).Descend?
    decreases source, 2
  {
    var merged := MergeEntries(store, base, source, target, b, t, ready);
    if merged.None? { return None; }
    if ready { AssembleMerge(base, source, target, merged.value.0, merged.value.1); }
    var o := new DirObject(merged.value.0);
    var h := store.WriteTree(o);
    r := Some(Merged(h, merged.value.1));
  }

  /** The merge loop over all names; `b` and `t` are what was read for base and target. */
  method MergeEntries(store: CachedTreeStore, base: Option<TreeHash>, source: TreeHash, target: TreeHash, b: Dir, t: Dir,
                      ghost ready: bool)
    returns (r: Option<(Dir, set<Path>)>)
    requires store.Faithful(Some(source))
    requires ready ==> store.Faithful(base) && store.Faithful(Some(target)) && b == Entries(base) && t == target.entries
    modifies store
    ensures forall h | old(store.Reads(h)) == Some(h.entries) :: store.Reads(h) == Some(h.entries)
    ensures r.Some? ==> forall n :: DecidedIn(b, source.entries, t, n, r.value.0, r.value.1)
    ensures ready && r.Some? ==> MergedSoFar(base, source, target, Names(base, source, target), r.value.0, r.value.1)
    ensures r.None? ==> exists n :: n in source.entries && Decide(Get(b, n), Get(source.entries, n), Get(t, n)).Descend?
    ensures ready && r.None? ==> exists n :: n in Names(base, source, target) && MergeName(base, source, target, n).None?
    decreases source, 1
  {
    var names := b.Keys + source.entries.Keys + t.Keys;
    var pending := names;
    var entries: Dir, conflicts: set<Path> := map[], {};
    while pending != {}
      invariant pending <= names
      invariant forall h | old(store.Reads(h)) == Some(h.entries) :: store.Reads(h) == Some(h.entries)
      invariant entries.Keys <= names - pending && forall c | c in conflicts :: c != [] && c[0] in names - pending
      invariant forall n | n in names - pending :: DecidedIn(b, source.entries, t, n, entries, conflicts)
      invariant ready ==> MergedSoFar(base, source, target, names - pending, entries, conflicts)
      decreases pending
    {
      var name :| name in pending;
      ghost var done, before, conflictsBefore := names - pending, entries, conflicts;
      pending := pending - {name};
      var res := MergeEntry(store, base, source, target, b, t, name, ready);
      if res.None? {
        return None;
      }
      var o := res.value;
      if o.entry.Some? { entries := entries[name := o.entry.value]; }
      conflicts := conflicts + PrefixAll(name, o.conflicts);
      OneMoreName(b, source.entries, t, done, before, conflictsBefore, name, o, entries, conflicts);
      if ready { MergedOneMore(base, source, target, done, before, conflictsBefore, name, entries, conflicts); }
      assert names - pending == done + {name};
    }
    assert names - pending == names;
    forall n | n !in names ensures DecidedIn(b, source.entries, t, n, entries, conflicts) {
      assert DecidedAs(b, source.entries, t, n, Outcome(None, {}));
      assert forall c :: ([n] + c)[0] == n;
      assert Holds(entries, conflicts, n, Outcome(None, {}));
    }
    r := Some((entries, conflicts));
  }

  lemma OneMoreName(b: Dir, s: Dir, t: Dir, done: set<Name>, before: Dir, conflictsBefore: set<Path>, name: Name, o: Outcome,
                    entries: Dir, conflicts: set<Path>)
    requires name !in done && DecidedAs(b, s, t, name, o)
    requires before.Keys <= done && forall c | c in conflictsBefore :: c != [] && c[0] in done
    requires forall n | n in done :: DecidedIn(b, s, t, n, before, conflictsBefore)
    requires entries == if o.entry.Some? then before[name := o.entry.value] else before
    requires conflicts == conflictsBefore + PrefixAll(name, o.conflicts)
    ensures entries.Keys <= done + {name} && forall c | c in conflicts :: c != [] && c[0] in done + {name}
    ensures forall n | n in done + {name} :: DecidedIn(b, s, t, n, entries, conflicts)
  {
    forall c ensures c in PrefixAll(name, o.conflicts) <==> c != [] && c[0] == name && c[1..] in o.conflicts {
      InPrefixAll(name, o.conflicts, c);
    }
    forall n, c: Path ensures ([n] + c)[0] == n && ([n] + c)[1..] == c {
    }
    forall n | n in done + {name} ensures DecidedIn(b, s, t, n, entries, conflicts) {
      if n == name {
        assert Holds(entries, conflicts, name, o);
      } else {
        var o' :| DecidedAs(b, s, t, n, o') && Holds(before, conflictsBefore, n, o');
        assert Holds(entries, conflicts, n, o');
      }
    }
  }

  /** One round of the merge loop. */
  method MergeEntry(store: CachedTreeStore, base: Option<TreeHash>, source: TreeHash, target: TreeHash, b: Dir, t: Dir,
                    name: Name, ghost ready: bool)
    returns (r: Option<Outcome>)
    requires store.Faithful(Some(source))
    requires ready ==> store.Faithful(base) && store.Faithful(Some(target)) && b == Entries(base) && t == target.entries
    modifies store
    ensures forall h | old(store.Reads(h)) == Some(h.entries) :: store.Reads(h) == Some(h.entries)
    ensures r.Some? ==> DecidedAs(b, source.entries, t, name, r.value)
    ensures r.None? ==> name in source.entries && Decide(Get(b, name), Get(source.entries, name), Get(t, name)).Descend?
    ensures ready ==> r == MergeName(base, source, target, name)
    decreases source, 0
  {
    var bn, sn, tn := Get(b, name), Get(source.entries, name), Get(t, name);
    if sn == tn { return Some(Outcome(sn, {})); }
    if sn == bn { return Some(Outcome(tn, {})); }
    if tn == bn { return Some(Outcome(sn, {})); }
    if IsTree(sn) && IsTree(tn) {
      FaithfulChild(store, source, name);
      if ready {
        FaithfulChild(store, target, name);
        if IsTree(bn) { FaithfulChild(store, base.value, name); }
      }
      var res := MergeTrees(store, SubTree(bn), sn.value.tree, tn.value.tree);
      if res.None? { return None; }
      r := Some(Outcome(Some(Tree(res.value.hash)), res.value.conflicts));
    } else {
      r := Some(Outcome(tn, {[]}));
    }
  }

  /**
   * A branch writes a file directly in the root of its base, the other branch does not touch that name, and
   * then the two are merged.  The base reads as the source, so the file looks unchanged and is dropped
   * without a conflict, although the merge of the three trees takes it.
   */
  method MergeAfterWrite(store: CachedTreeStore, base: TreeHash, n: Name, file: FileId, target: TreeHash)
    returns (source: TreeHash, r: Option<Merged>)
    requires store.Faithful(Some(base)) && store.Reads(target) == Some(target.entries) && target != base
    requires Get(target.entries, n) == Get(base.entries, n) != Some(Blob(file))
    modifies store, store.cache.Values
    ensures source == Edit(Some(base), [n], Some(Blob(file)))
    ensures r.Some? ==> Get(r.value.hash.entries, n) == Get(target.entries, n) && forall c :: [n] + c !in r.value.conflicts
    ensures Merge(Some(base), source, target).Some? ==> Get(Merge(Some(base), source, target).value.hash.entries, n) == Some(Blob(file))
    ensures (forall m :: !IsTree(Get(base.entries, m))) ==> r.Some?
  {
    FileInRootIsClean(base, n, file);
    source := store.EditFaithful(Some(base), [n], Some(Blob(file)));
    assert Get(source.entries, n) == Some(Blob(file));
    assert Becomes(Some(base), [n], Some(Blob(file)), base, source);
    assert store.Reads(base) == Some(source.entries) && store.Reads(target) == Some(target.entries);
    r := MergeTrees(store, Some(base), source, target);
    if r.Some? {
      assert DecidedIn(source.entries, source.entries, target.entries, n, r.value.hash.entries, r.value.conflicts);
    }
    if Merge(Some(base), source, target).Some? {
      MergedEntry(Some(base), source, target, n);
    }
  }
}
