/**
 * Three-way merge, in its two forms: on directory trees (`mergeTrees`) and on flat path maps
 * (`calculateMerge`).  The tree form is proved to refine the flat form.
 */
module TreeMerge {
  import opened Wrappers
  import opened Paths
  import opened MerkleTrees

  // ---------------------------------------------------------------- the tree merge

  datatype Merged = Merged(hash: TreeHash, conflicts: set<Path>)

  /** What the merge decides for one name before it looks inside directories. */
  datatype Verdict = Take(entry: Option<Entry>) | Descend | Clash

  function Decide(b: Option<Entry>, s: Option<Entry>, t: Option<Entry>): Verdict {
    if s == t then Take(s)
    else if s == b then Take(t)
    else if t == b then Take(s)
    else if IsTree(s) && IsTree(t) then Descend
    else Clash
  }

  /** The outcome for one name; conflict paths are relative to the name. */
  datatype Outcome = Outcome(entry: Option<Entry>, conflicts: set<Path>)

  function Entries(root: Option<TreeHash>): Dir {
    if root.Some? then root.value.entries else map[]
  }

  function SubTree(e: Option<Entry>): Option<TreeHash> {
    if IsTree(e) then Some(e.value.tree) else None
  }

  function Names(b: Option<TreeHash>, s: TreeHash, t: TreeHash): set<Name> {
    Entries(b).Keys + s.entries.Keys + t.entries.Keys
  }

  /**
   * The result of `mergeTrees`, or `None` when it throws because it asks for a base directory that
   * is not there.  A base of `None` stands for the hash `''` or the hash of something that is not a
   * directory: neither is in the tree table.
   */
  function Merge(b: Option<TreeHash>, s: TreeHash, t: TreeHash): Option<Merged>
    decreases s, 1
  {
    if s == t then Some(Merged(s, {}))
    else if Some(s) == b then Some(Merged(t, {}))
    else if Some(t) == b then Some(Merged(s, {}))
    else if b.None? || exists n :: n in Names(b, s, t) && MergeName(b, s, t, n).None? then None
    else Some(Merged(
      Digest(map n | n in Names(b, s, t) && MergeName(b, s, t, n).value.entry.Some?
                   :: MergeName(b, s, t, n).value.entry.value),
      set n, c | n in Names(b, s, t) && c in MergeName(b, s, t, n).value.conflicts :: [n] + c))
  }

  function MergeName(b: Option<TreeHash>, s: TreeHash, t: TreeHash, n: Name): Option<Outcome>
    decreases s, 0
  {
    var bn, sn, tn := Get(Entries(b), n), Get(s.entries, n), Get(t.entries, n);
    match Decide(bn, sn, tn)
    case Take(e) => Some(Outcome(e, {}))
    case Clash => Some(Outcome(tn, {[]}))
    case Descend =>
      var m := Merge(SubTree(bn), sn.value.tree, tn.value.tree);
      if m.None? then None else Some(Outcome(Some(Tree(m.value.hash)), m.value.conflicts))
  }

  /** The merge looks at the entries only when neither side equals the other or the base. */
  predicate Differ(b: Option<TreeHash>, s: TreeHash, t: TreeHash) {
    s != t && Some(s) != b && Some(t) != b
  }

  /** The merged directory, name by name. */
  lemma MergedEntry(b: Option<TreeHash>, s: TreeHash, t: TreeHash, n: Name)
    requires Differ(b, s, t) && Merge(b, s, t).Some?
    ensures MergeName(b, s, t, n).Some?
    ensures Get(Merge(b, s, t).value.hash.entries, n) == MergeName(b, s, t, n).value.entry
    ensures forall c :: [n] + c in Merge(b, s, t).value.conflicts <==> c in MergeName(b, s, t, n).value.conflicts
  {
    var m := Merge(b, s, t).value;
    if n !in Names(b, s, t) {
      assert MergeName(b, s, t, n) == Some(Outcome(None, {}));
    }
    forall c, n', c' | [n] + c == [n'] + c'
      ensures n == n' && c == c'
    {
      assert ([n] + c)[0] == n && ([n] + c)[1..] == c && ([n'] + c')[0] == n' && ([n'] + c')[1..] == c';
    }
  }

  // ---------------------------------------------------------------- the flat merge

  datatype FlatVerdict = FlatVerdict(file: Option<FileId>, clash: bool)

  function FlatDecide(b: Option<FileId>, s: Option<FileId>, t: Option<FileId>): FlatVerdict {
    if s == t then FlatVerdict(s, false)
    else if s == b then FlatVerdict(t, false)
    else if t == b then FlatVerdict(s, false)
    else FlatVerdict(t, true)
  }

  type FlatTree = map<Path, FileId>

  function Look(m: FlatTree, p: Path): Option<FileId> {
    if p in m then Some(m[p]) else None
  }

  function FlatVerdictAt(b: FlatTree, s: FlatTree, t: FlatTree, p: Path): FlatVerdict {
    FlatDecide(Look(b, p), Look(s, p), Look(t, p))
  }

  datatype FlatMerged = FlatMerged(tree: FlatTree, conflicts: set<Path>)

  function FlatMerge(b: FlatTree, s: FlatTree, t: FlatTree): FlatMerged {
    var paths := b.Keys + s.Keys + t.Keys;
    FlatMerged(
      map p | p in paths && FlatVerdictAt(b, s, t, p).file.Some? :: FlatVerdictAt(b, s, t, p).file.value,
      set p | p in paths && FlatVerdictAt(b, s, t, p).clash)
  }

  /** The loop of `calculateMerge` over all paths, in any order, computes the flat merge. */
  method CalculateMerge(baseTree: FlatTree, sourceTree: FlatTree, targetTree: FlatTree)
    returns (mergedTree: FlatTree, conflicts: seq<Path>)
    ensures mergedTree == FlatMerge(baseTree, sourceTree, targetTree).tree
    ensures (set c | c in conflicts) == FlatMerge(baseTree, sourceTree, targetTree).conflicts
    ensures forall i, j | 0 <= i < j < |conflicts| :: conflicts[i] != conflicts[j]
  {
    mergedTree, conflicts := map[], [];
    var pending := baseTree.Keys + sourceTree.Keys + targetTree.Keys;
    ghost var all := pending;
    while pending != {}
      invariant pending <= all
      invariant forall p :: Look(mergedTree, p) ==
                            if p in all && p !in pending then FlatVerdictAt(baseTree, sourceTree, targetTree, p).file else None
      invariant forall c :: c in conflicts <==>
                            c in all && c !in pending && FlatVerdictAt(baseTree, sourceTree, targetTree, c).clash
      invariant forall i, j | 0 <= i < j < |conflicts| :: conflicts[i] != conflicts[j]
      decreases pending
    {
      var path :| path in pending;
      pending := pending - {path};
      var s, t, b := Look(sourceTree, path), Look(targetTree, path), Look(baseTree, path);
      if s == t {
        if s.Some? { mergedTree := mergedTree[path := s.value]; }
        continue;
      }
      if s == b {
        if t.Some? { mergedTree := mergedTree[path := t.value]; }
        continue;
      }
      if t == b {
        if s.Some? { mergedTree := mergedTree[path := s.value]; }
        continue;
      }
      conflicts := conflicts + [path];
      if t.Some? { mergedTree := mergedTree[path := t.value]; }
    }
    assert forall p | p !in all :: FlatVerdictAt(baseTree, sourceTree, targetTree, p) == FlatVerdict(None, false);
    FlatMergeAt(baseTree, sourceTree, targetTree);
    SameFlatTree(mergedTree, FlatMerge(baseTree, sourceTree, targetTree).tree);
  }

  lemma FlatMergeAt(b: FlatTree, s: FlatTree, t: FlatTree)
    ensures forall p :: Look(FlatMerge(b, s, t).tree, p) == FlatVerdictAt(b, s, t, p).file
    ensures forall p :: p in FlatMerge(b, s, t).conflicts <==> FlatVerdictAt(b, s, t, p).clash
  {
  }

  /**
   * The flat merge path by path: a side that kept the base yields to the other one, equal sides agree, and
   * three different contents are a conflict, at which the target stays.
   */
  lemma FlatMergeMeans(b: FlatTree, s: FlatTree, t: FlatTree, p: Path)
    ensures var m, bp, sp, tp := FlatMerge(b, s, t), Look(b, p), Look(s, p), Look(t, p);
            && (p in m.conflicts <==> sp != tp && sp != bp && tp != bp)
            && (sp == tp ==> Look(m.tree, p) == sp)
            && (sp == bp ==> Look(m.tree, p) == tp)
            && (tp == bp ==> Look(m.tree, p) == sp)
            && (p in m.conflicts ==> Look(m.tree, p) == tp)
  {
  }

  lemma SameFlatTree(m: FlatTree, w: FlatTree)
    requires forall p :: Look(m, p) == Look(w, p)
    ensures m == w
  {
    forall p ensures p in m <==> p in w {
      assert Look(m, p) == Look(w, p);
    }
    forall p | p in m ensures m[p] == w[p] {
      assert Look(m, p) == Look(w, p);
    }
  }

  // ---------------------------------------------------------------- refinement

  /** The path or one of its ancestors is a reported conflict. */
  ghost predicate Covered(conflicts: set<Path>, p: Path) {
    exists c :: c in conflicts && c <= p
  }

  /**
   * Wherever the tree merge reports no conflict at a path or above it, the flat merge of that path
   * has no conflict either, and the merged tree holds what the flat merge puts there.
   */
  lemma {:induction false} MergeAgreesAt(b: Option<TreeHash>, s: TreeHash, t: TreeHash, p: Path)
    requires Merge(b, s, t).Some?
    ensures var m := Merge(b, s, t).value;
            || Covered(m.conflicts, p)
            || FlatDecide(RootAt(b, p), At(s, p), At(t, p)) == FlatVerdict(At(m.hash, p), false)
    decreases |p|
  {
    if Differ(b, s, t) && p != [] {
      var n, m := p[0], Merge(b, s, t).value;
      MergedEntry(b, s, t, n);
      var bn, sn, tn := Get(Entries(b), n), Get(s.entries, n), Get(t.entries, n);
      match Decide(bn, sn, tn)
      case Take(_) =>
      case Clash =>
        assert [n] + [] == [n] <= p;
      case Descend =>
        MergeAgreesAt(SubTree(bn), sn.value.tree, tn.value.tree, p[1..]);
        CoveredBelow(MergeName(b, s, t, n).value.conflicts, m.conflicts, p);
    }
  }

  lemma CoveredBelow(below: set<Path>, conflicts: set<Path>, p: Path)
    requires p != [] && forall c :: c in below ==> [p[0]] + c in conflicts
    ensures Covered(below, p[1..]) ==> Covered(conflicts, p)
  {
    if Covered(below, p[1..]) {
      var c :| c in below && c <= p[1..];
      assert p == [p[0]] + p[1..];
      assert [p[0]] + c <= p;
    }
  }

  /**
   * Hierarchical merge refines flat merge.  Without conflicts, flattening the merged tree gives the
   * path-by-path merge of the three flattened trees, which is itself free of conflicts; in general
   * every flat conflict is reported at its own path or at a directory above it.
   */
  lemma MergeRefinesFlatMerge(b: TreeHash, s: TreeHash, t: TreeHash, levels: nat)
    requires Merge(Some(b), s, t).Some?
    ensures var m, flat := Merge(Some(b), s, t).value, FlatMerge(Flat(b, levels), Flat(s, levels), Flat(t, levels));
            && (m.conflicts == {} ==> flat == FlatMerged(Flat(m.hash, levels), {}))
            && forall p :: p in flat.conflicts ==> Covered(m.conflicts, p)
  {
    var m, flat := Merge(Some(b), s, t).value, FlatMerge(Flat(b, levels), Flat(s, levels), Flat(t, levels));
    forall p
      ensures p in flat.conflicts ==> Covered(m.conflicts, p)
      ensures m.conflicts == {} ==> p !in flat.conflicts && Look(flat.tree, p) == Look(Flat(m.hash, levels), p)
    {
      MergeRefinesFlatMergeAt(b, s, t, levels, p);
    }
    if m.conflicts == {} {
      SameFlatTree(flat.tree, Flat(m.hash, levels));
    }
  }

  lemma MergeRefinesFlatMergeAt(b: TreeHash, s: TreeHash, t: TreeHash, levels: nat, p: Path)
    requires Merge(Some(b), s, t).Some?
    ensures var m, flat := Merge(Some(b), s, t).value, FlatMerge(Flat(b, levels), Flat(s, levels), Flat(t, levels));
            || Covered(m.conflicts, p)
            || (p !in flat.conflicts && Look(flat.tree, p) == Look(Flat(m.hash, levels), p))
  {
    MergeAgreesAt(Some(b), s, t, p);
    forall h ensures Look(Flat(h, levels), p) == if |p| <= levels then At(h, p) else None {
      assert Flattens(Flat(h, levels), h, levels);
    }
  }

  // ---------------------------------------------------------------- laws

  /** Both merges fail, or both report the same conflicts and, without conflicts, give the same tree. */
  predicate SameMerge(m: Option<Merged>, w: Option<Merged>) {
    && m.Some? == w.Some?
    && (m.Some? ==> m.value.conflicts == w.value.conflicts)
    && (m.Some? && m.value.conflicts == {} ==> m.value.hash == w.value.hash)
  }

  /** Swapping the sides: the same failures, the same conflict set, and the same clean result. */
  lemma {:induction false} MergeSymmetric(b: Option<TreeHash>, s: TreeHash, t: TreeHash)
    ensures SameMerge(Merge(b, s, t), Merge(b, t, s))
    decreases s
  {
    if Differ(b, s, t) {
      forall n | n in Names(b, s, t)
        ensures var o, w := MergeName(b, s, t, n), MergeName(b, t, s, n);
                && o.Some? == w.Some?
                && (o.Some? ==> o.value.conflicts == w.value.conflicts)
                && (o.Some? && o.value.conflicts == {} ==> o.value.entry == w.value.entry)
      {
        var bn, sn, tn := Get(Entries(b), n), Get(s.entries, n), Get(t.entries, n);
        if Decide(bn, sn, tn).Descend? {
          MergeSymmetric(SubTree(bn), sn.value.tree, tn.value.tree);
        }
      }
      assert Names(b, s, t) == Names(b, t, s);
      if Merge(b, s, t).Some? {
        SameNames(b, s, t);
      }
    }
  }

  lemma SameNames(b: Option<TreeHash>, s: TreeHash, t: TreeHash)
    requires Differ(b, s, t) && Merge(b, s, t).Some? && Merge(b, t, s).Some?
    requires forall n | n in Names(b, s, t) ::
               var o, w := MergeName(b, s, t, n).value, MergeName(b, t, s, n).value;
               o.conflicts == w.conflicts && (o.conflicts == {} ==> o.entry == w.entry)
    ensures SameMerge(Merge(b, s, t), Merge(b, t, s))
  {
    var m, w := Merge(b, s, t).value, Merge(b, t, s).value;
    assert Names(b, s, t) == Names(b, t, s);
    if m.conflicts == {} {
      forall n | n in Names(b, s, t) ensures MergeName(b, s, t, n).value.conflicts == {} {
        MergedEntry(b, s, t, n);
        assert forall c :: c in MergeName(b, s, t, n).value.conflicts ==> [n] + c in m.conflicts;
      }
      assert m.hash.entries == w.hash.entries;
    }
  }

  /** A clean merge that ends up at the base can only come from a source that is the base. */
  lemma {:induction false} MergeBackToBase(b: TreeHash, s: TreeHash, t: TreeHash)
    requires Merge(Some(b), s, t) == Some(Merged(b, {}))
    ensures s == b
    decreases s
  {
    if Differ(Some(b), s, t) {
      forall n
        ensures Get(s.entries, n) == Get(b.entries, n)
      {
        MergedEntry(Some(b), s, t, n);
        var bn, sn, tn := Get(b.entries, n), Get(s.entries, n), Get(t.entries, n);
        NoConflictBelow(Some(b), s, t, n);
        if Decide(bn, sn, tn).Descend? {
          MergeBackToBase(SubTree(bn).value, sn.value.tree, tn.value.tree);
        }
      }
      SameEntries(s, b);
    }
  }

  lemma NoConflictBelow(b: Option<TreeHash>, s: TreeHash, t: TreeHash, n: Name)
    requires Differ(b, s, t) && Merge(b, s, t).Some? && Merge(b, s, t).value.conflicts == {}
    ensures MergeName(b, s, t, n).Some? && MergeName(b, s, t, n).value.conflicts == {}
  {
    MergedEntry(b, s, t, n);
    assert forall c :: c in MergeName(b, s, t, n).value.conflicts ==> [n] + c in Merge(b, s, t).value.conflicts;
  }

  lemma SameEntries(h: TreeHash, k: TreeHash)
    requires forall n :: Get(h.entries, n) == Get(k.entries, n)
    ensures h == k
  {
    forall n ensures n in h.entries <==> n in k.entries {
      assert Get(h.entries, n) == Get(k.entries, n);
    }
    forall n | n in h.entries ensures h.entries[n] == k.entries[n] {
      assert Get(h.entries, n) == Get(k.entries, n);
    }
    assert h.entries == k.entries;
  }

  /** Merging the same source a second time changes nothing. */
  lemma {:induction false} MergeIdempotent(b: Option<TreeHash>, s: TreeHash, t: TreeHash)
    requires Merge(b, s, t).Some? && Merge(b, s, t).value.conflicts == {}
    ensures var m := Merge(b, s, t).value.hash; Merge(b, s, m) == Some(Merged(m, {}))
    decreases s
  {
    var m := Merge(b, s, t).value.hash;
    if Differ(b, s, t) && s != m {
      if Some(m) == b {
        MergeBackToBase(m, s, t);
      }
      forall n
        ensures MergeName(b, s, m, n) == Some(Outcome(Get(m.entries, n), {}))
      {
        MergedEntry(b, s, t, n);
        NoConflictBelow(b, s, t, n);
        var bn, sn, tn := Get(Entries(b), n), Get(s.entries, n), Get(t.entries, n);
        if Decide(bn, sn, tn).Descend? {
          MergeIdempotent(SubTree(bn), sn.value.tree, tn.value.tree);
          if Get(m.entries, n) == bn {
            MergeBackToBase(SubTree(bn).value, sn.value.tree, tn.value.tree);
          }
        }
      }
      assert Merge(b, s, m).Some?;
      var again := Merge(b, s, m).value;
      forall n ensures Get(again.hash.entries, n) == Get(m.entries, n) {
        MergedEntry(b, s, m, n);
      }
      SameEntries(again.hash, m);
      assert again.conflicts == {};
    }
  }

  // ---------------------------------------------------------------- which conflicts, which failures

  /** The entry at a path, directories included. */
  function EntryOf(h: Option<TreeHash>, p: Path): Option<Entry>
    requires p != []
    decreases |p|
  {
    if h.None? then None
    else if |p| == 1 then Get(h.value.entries, p[0])
    else EntryOf(SubTree(Get(h.value.entries, p[0])), p[1..])
  }

  /** Files and lookups are those of the entries: every other reading of a tree comes back to this one. */
  lemma {:induction false} EntriesTellFiles(h: TreeHash, p: Path)
    requires p != []
    ensures var e := EntryOf(Some(h), p);
            && At(h, p) == (if e.None? || e.value.Tree? then None else if e.value.Blob? then Some(e.value.file) else Some("REPO:" + e.value.repo))
            && Resolve(h, p) == (if e.None? then None
                                 else if e.value.Tree? then Some(Directory(e.value.tree)) else Some(File(Ref(e.value))))
    decreases |p|
  {
    if |p| > 1 {
      var sub := SubTree(Get(h.entries, p[0]));
      if sub.Some? {
        EntriesTellFiles(sub.value, p[1..]);
      } else {
        NoEntryBelow(p[1..]);
      }
    }
  }

  lemma NoEntryBelow(p: Path)
    requires p != []
    ensures EntryOf(None, p) == None
  {
  }

  /** Both sides have directories at every path strictly above `p`. */
  predicate DirectoriesAbove(s: TreeHash, t: TreeHash, p: Path) {
    forall k | 0 < k < |p| :: IsTree(EntryOf(Some(s), p[..k])) && IsTree(EntryOf(Some(t), p[..k]))
  }

  /** Three pairwise different entries at `p`, not a pair of directories that could be merged. */
  predicate Contested(b: Option<TreeHash>, s: TreeHash, t: TreeHash, p: Path) {
    && p != []
    && DirectoriesAbove(s, t, p)
    && Decide(EntryOf(b, p), EntryOf(Some(s), p), EntryOf(Some(t), p)).Clash?
  }

  lemma DirectoriesAboveStep(s: TreeHash, t: TreeHash, p: Path)
    requires |p| > 1
    ensures DirectoriesAbove(s, t, p) <==>
            var sn, tn := Get(s.entries, p[0]), Get(t.entries, p[0]);
            IsTree(sn) && IsTree(tn) && DirectoriesAbove(sn.value.tree, tn.value.tree, p[1..])
  {
    var sn, tn := Get(s.entries, p[0]), Get(t.entries, p[0]);
    forall k | 0 < k < |p|
      ensures p[..k][0] == p[0] && (k > 1 ==> p[..k][1..] == p[1..][..k - 1])
    {
    }
    if DirectoriesAbove(s, t, p) {
      assert IsTree(EntryOf(Some(s), p[..1])) && IsTree(EntryOf(Some(t), p[..1]));
      forall k | 0 < k < |p| - 1
        ensures IsTree(EntryOf(SubTree(sn), p[1..][..k])) && IsTree(EntryOf(SubTree(tn), p[1..][..k]))
      {
        assert p[..k + 1][1..] == p[1..][..k];
        assert IsTree(EntryOf(Some(s), p[..k + 1])) && IsTree(EntryOf(Some(t), p[..k + 1]));
      }
    }
    if IsTree(sn) && IsTree(tn) && DirectoriesAbove(sn.value.tree, tn.value.tree, p[1..]) {
      forall k | 0 < k < |p|
        ensures IsTree(EntryOf(Some(s), p[..k])) && IsTree(EntryOf(Some(t), p[..k]))
      {
        if k > 1 {
          assert p[..k][1..] == p[1..][..k - 1];
          assert IsTree(EntryOf(SubTree(sn), p[1..][..k - 1])) && IsTree(EntryOf(SubTree(tn), p[1..][..k - 1]));
        }
      }
    }
  }

  /** The reported conflicts are exactly the contested paths. */
  lemma {:induction false} ConflictsAreContested(b: Option<TreeHash>, s: TreeHash, t: TreeHash, p: Path)
    requires Merge(b, s, t).Some?
    ensures p in Merge(b, s, t).value.conflicts <==> Contested(b, s, t, p)
    decreases |p|
  {
    if Differ(b, s, t) && p != [] {
      var n := p[0];
      MergedEntry(b, s, t, n);
      assert p == [n] + p[1..];
      var bn, sn, tn := Get(Entries(b), n), Get(s.entries, n), Get(t.entries, n);
      if |p| > 1 {
        DirectoriesAboveStep(s, t, p);
        if Decide(bn, sn, tn).Descend? {
          ConflictsAreContested(SubTree(bn), sn.value.tree, tn.value.tree, p[1..]);
        }
      } else {
        if Decide(bn, sn, tn).Descend? {
          assert [] !in MergeName(b, s, t, n).value.conflicts by {
            ConflictsAreContested(SubTree(bn), sn.value.tree, tn.value.tree, []);
          }
        }
      }
    }
  }

  /** At a conflict the merged tree holds what the target holds there. */
  lemma {:induction false} ConflictsKeepTarget(b: Option<TreeHash>, s: TreeHash, t: TreeHash, p: Path)
    requires Merge(b, s, t).Some? && p in Merge(b, s, t).value.conflicts
    ensures p != [] && EntryOf(Some(Merge(b, s, t).value.hash), p) == EntryOf(Some(t), p)
    decreases |p|
  {
    ConflictsAreContested(b, s, t, p);
    var n := p[0];
    MergedEntry(b, s, t, n);
    assert p == [n] + p[1..];
    var bn, sn, tn := Get(Entries(b), n), Get(s.entries, n), Get(t.entries, n);
    if Decide(bn, sn, tn).Descend? {
      var m := Merge(SubTree(bn), sn.value.tree, tn.value.tree);
      assert p[1..] in m.value.conflicts;
      ConflictsKeepTarget(SubTree(bn), sn.value.tree, tn.value.tree, p[1..]);
    }
  }

  /** Two different directories at `p`, and no directory there in the base. */
  predicate Baseless(b: Option<TreeHash>, s: TreeHash, t: TreeHash, p: Path) {
    && p != []
    && IsTree(EntryOf(Some(s), p)) && IsTree(EntryOf(Some(t), p))
    && EntryOf(Some(s), p) != EntryOf(Some(t), p)
    && !IsTree(EntryOf(b, p))
  }

  /** The merge of two roots with a base fails exactly when some path is baseless. */
  lemma {:induction false} MergeFailsWhen(b: TreeHash, s: TreeHash, t: TreeHash)
    ensures Merge(Some(b), s, t).None? <==> exists p :: Baseless(Some(b), s, t, p)
    decreases s
  {
    if Merge(Some(b), s, t).None? {
      var p := FailureWitness(b, s, t);
    }
    forall p | Baseless(Some(b), s, t, p)
      ensures Merge(Some(b), s, t).None?
    {
      BaselessFails(b, s, t, p);
    }
  }

  lemma {:induction false} FailureWitness(b: TreeHash, s: TreeHash, t: TreeHash) returns (p: Path)
    requires Merge(Some(b), s, t).None?
    ensures Baseless(Some(b), s, t, p)
    decreases s
  {
    var n :| n in Names(Some(b), s, t) && MergeName(Some(b), s, t, n).None?;
    var bn, sn, tn := Get(b.entries, n), Get(s.entries, n), Get(t.entries, n);
    if IsTree(bn) {
      var q := FailureWitness(bn.value.tree, sn.value.tree, tn.value.tree);
      p := [n] + q;
      assert p[1..] == q;
    } else {
      p := [n];
    }
  }

  lemma {:induction false} BaselessFails(b: TreeHash, s: TreeHash, t: TreeHash, p: Path)
    requires Baseless(Some(b), s, t, p)
    ensures Merge(Some(b), s, t).None?
    decreases |p|
  {
    var n := p[0];
    var bn, sn, tn := Get(b.entries, n), Get(s.entries, n), Get(t.entries, n);
    assert n in Names(Some(b), s, t);
    if |p| > 1 && IsTree(bn) {
      assert EntryOf(SubTree(sn), p[1..]).Some? && EntryOf(SubTree(tn), p[1..]).Some?;
      BaselessFails(bn.value.tree, sn.value.tree, tn.value.tree, p[1..]);
    }
    assert MergeName(Some(b), s, t, n).None?;
  }

  /** The smallest failing case: both sides add the directory `d`, with different contents. */
  lemma BothAddADirectory()
    ensures var s := Digest(map["d" := Tree(Digest(map["x" := Blob("1")]))]);
            var t := Digest(map["d" := Tree(Digest(map["y" := Blob("2")]))]);
            Merge(Some(Digest(map[])), s, t).None?
  {
    var s := Digest(map["d" := Tree(Digest(map["x" := Blob("1")]))]);
    var t := Digest(map["d" := Tree(Digest(map["y" := Blob("2")]))]);
    assert "x" in s.entries["d"].tree.entries && "x" !in t.entries["d"].tree.entries;
    assert Baseless(Some(Digest(map[])), s, t, ["d"]);
    BaselessFails(Digest(map[]), s, t, ["d"]);
  }
}
