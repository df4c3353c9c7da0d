/**
 * What readers see.  A view gives the entries that reading each hash yields: the rows of the table when
 * every row is read as stored, other entries when a cache in front of it has been changed.  The walks of
 * the source only read, so each is described on an arbitrary view; on a view that reads right they come to
 * what `MerkleTrees` says about tree hashes.
 */
module TreeViews {
  import opened Wrappers
  import opened Paths
  import opened MerkleTrees
  import opened TreeMerge

  type TreeTable = map<TreeHash, Dir>

  /** Every row is stored under the hash of its own entries. */
  ghost predicate ContentAddressed(trees: TreeTable) {
    forall h | h in trees :: trees[h] == h.entries
  }

  /** Every directory that can be seen in the view can be read. */
  ghost predicate Closed(view: TreeTable) {
    forall h, n | h in view && IsTree(Get(view[h], n)) :: view[h][n].tree in view
  }

  /** Reading a hash that is not there gives nothing; the source throws. */
  function DirIn(view: TreeTable, h: TreeHash): Dir {
    if h in view then view[h] else map[]
  }

  /** The directories seen from `h` down to `levels` levels can all be read. */
  ghost predicate StoredTo(view: TreeTable, h: TreeHash, levels: nat)
    decreases levels
  {
    levels == 0 ||
    (h in view && forall n | IsTree(Get(view[h], n)) :: StoredTo(view, view[h][n].tree, levels - 1))
  }

  lemma {:induction false} ClosedIsStored(view: TreeTable, h: TreeHash, levels: nat)
    requires Closed(view) && h in view
    ensures StoredTo(view, h, levels)
    decreases levels
  {
    if levels > 0 {
      forall n | IsTree(Get(view[h], n))
        ensures StoredTo(view, view[h][n].tree, levels - 1)
      {
        ClosedIsStored(view, view[h][n].tree, levels - 1);
      }
    }
  }

  /** The directories met on the way down the path `p` can be read. */
  predicate SpineStored(view: TreeTable, root: Option<TreeHash>, p: Path)
    requires p != []
    decreases |p|
  {
    root.Some? ==>
      root.value in view &&
      (|p| > 1 ==> SpineStored(view, SubTree(Get(view[root.value], p[0])), p[1..]))
  }

  lemma {:induction false} ClosedSpine(view: TreeTable, root: Option<TreeHash>, p: Path)
    requires p != [] && Closed(view) && (root.Some? ==> root.value in view)
    ensures SpineStored(view, root, p)
    decreases |p|
  {
    if root.Some? && |p| > 1 {
      ClosedSpine(view, SubTree(Get(view[root.value], p[0])), p[1..]);
    }
  }

  // ---------------------------------------------------------------- files

  /** The file that a reader who walks down from `h` finds at the path `p`. */
  function SeenIn(view: TreeTable, h: TreeHash, p: Path): Option<FileId>
    decreases |p|
  {
    if p == [] || p[0] !in DirIn(view, h) then None
    else
      var e := DirIn(view, h)[p[0]];
      if e.Tree? then SeenIn(view, e.tree, p[1..]) else if |p| == 1 then Some(Ref(e)) else None
  }

  /** What a lookup of the path `p` answers. */
  function ResolveIn(view: TreeTable, h: TreeHash, p: Path): Option<Target>
    requires p != []
    decreases |p|
  {
    var e := Get(DirIn(view, h), p[0]);
    if e.None? then None
    else if |p| > 1 then
      if e.value.Tree? then ResolveIn(view, e.value.tree, p[1..]) else None
    else if e.value.Tree? then Some(Directory(e.value.tree))
    else Some(File(Ref(e.value)))
  }

  /** All paths of at most `levels` components at which a reader finds something that is no directory. */
  function PathsIn(view: TreeTable, h: TreeHash, levels: nat): set<Path>
    decreases levels
  {
    if levels == 0 then {}
    else
      set n, q | n in DirIn(view, h).Keys
                 && q in (if DirIn(view, h)[n].Tree? then PathsIn(view, DirIn(view, h)[n].tree, levels - 1) else {[]})
               :: [n] + q
  }

  lemma {:induction false} PathsInAreSeen(view: TreeTable, h: TreeHash, levels: nat, p: Path)
    ensures p in PathsIn(view, h, levels) <==> |p| <= levels && SeenIn(view, h, p).Some?
    decreases levels
  {
    if p != [] && levels > 0 {
      assert p == [p[0]] + p[1..];
      var d := DirIn(view, h);
      if p[0] in d && d[p[0]].Tree? {
        PathsInAreSeen(view, d[p[0]].tree, levels - 1, p[1..]);
      }
      forall n, q | [n] + q == p
        ensures n == p[0] && q == p[1..]
      {
        assert q == ([n] + q)[1..];
      }
    }
  }

  /** The flat tree that a reader gets from `h`, down to `levels` components. */
  function FlatIn(view: TreeTable, h: TreeHash, levels: nat): FlatTree {
    map p | p in PathsIn(view, h, levels) && SeenIn(view, h, p).Some? :: SeenIn(view, h, p).value
  }

  lemma FlatInIsSeen(view: TreeTable, h: TreeHash, levels: nat)
    ensures forall p :: Look(FlatIn(view, h, levels), p) == if |p| <= levels then SeenIn(view, h, p) else None
  {
    forall p ensures Look(FlatIn(view, h, levels), p) == if |p| <= levels then SeenIn(view, h, p) else None {
      PathsInAreSeen(view, h, levels, p);
    }
  }

  // ---------------------------------------------------------------- containment

  /** Walking down from `h`, a reader comes to `t` within `levels` levels. */
  ghost predicate Reaches(view: TreeTable, h: TreeHash, t: TreeHash, levels: nat)
    decreases levels
  {
    levels > 0 &&
    (h == t || exists n | IsTree(Get(DirIn(view, h), n)) :: Reaches(view, DirIn(view, h)[n].tree, t, levels - 1))
  }

  /** No walk down from `h` goes deeper than `levels` levels. */
  ghost predicate WithinView(view: TreeTable, h: TreeHash, levels: nat)
    decreases levels
  {
    levels > 0 &&
    forall n | IsTree(Get(DirIn(view, h), n)) :: WithinView(view, DirIn(view, h)[n].tree, levels - 1)
  }

  lemma ReachesChild(view: TreeTable, h: TreeHash, n: Name, t: TreeHash, levels: nat)
    requires levels > 0 && IsTree(Get(DirIn(view, h), n)) && Reaches(view, DirIn(view, h)[n].tree, t, levels - 1)
    ensures Reaches(view, h, t, levels)
  {
  }

  lemma {:induction false} ReachesStep(view: TreeTable, h: TreeHash, t: TreeHash, levels: nat, n: Name)
    requires Reaches(view, h, t, levels) && IsTree(Get(DirIn(view, t), n))
    ensures Reaches(view, h, DirIn(view, t)[n].tree, levels + 1)
    decreases levels
  {
    if h == t {
      assert Reaches(view, DirIn(view, h)[n].tree, DirIn(view, t)[n].tree, levels);
    } else {
      var m :| IsTree(Get(DirIn(view, h), m)) && Reaches(view, DirIn(view, h)[m].tree, t, levels - 1);
      ReachesStep(view, DirIn(view, h)[m].tree, t, levels - 1, n);
    }
  }

  /** In a closed view a walk comes only to directories that can be read. */
  lemma {:induction false} ReachedIsStored(view: TreeTable, h: TreeHash, t: TreeHash, levels: nat)
    requires Closed(view) && h in view && Reaches(view, h, t, levels)
    ensures t in view
    decreases levels
  {
    if h != t {
      var n :| IsTree(Get(DirIn(view, h), n)) && Reaches(view, DirIn(view, h)[n].tree, t, levels - 1);
      ReachedIsStored(view, view[h][n].tree, t, levels - 1);
    }
  }

  // ---------------------------------------------------------------- reading right

  /** Every directory of the tree reads as itself. */
  ghost predicate RightTree(view: TreeTable, h: TreeHash) {
    forall t | Inside(h, t) :: t in view && view[t] == t.entries
  }

  /** The directories of the tree down to `levels` levels read as themselves. */
  ghost predicate RightTo(view: TreeTable, h: TreeHash, levels: nat)
    decreases levels
  {
    levels == 0 ||
    (h in view && view[h] == h.entries
     && forall n | IsTree(Get(h.entries, n)) :: RightTo(view, h.entries[n].tree, levels - 1))
  }

  lemma RightChild(view: TreeTable, h: TreeHash, n: Name)
    requires RightTree(view, h) && IsTree(Get(h.entries, n))
    ensures RightTree(view, h.entries[n].tree)
  {
    forall t | Inside(h.entries[n].tree, t) ensures Inside(h, t) {
      InsideChild(h, n, t);
    }
  }

  lemma {:induction false} RightTreeTo(view: TreeTable, h: TreeHash, levels: nat)
    requires RightTree(view, h)
    ensures RightTo(view, h, levels)
    decreases levels
  {
    InsideItself(h);
    if levels > 0 {
      forall n | IsTree(Get(h.entries, n)) ensures RightTo(view, h.entries[n].tree, levels - 1) {
        RightChild(view, h, n);
        RightTreeTo(view, h.entries[n].tree, levels - 1);
      }
    }
  }

  /** A content-addressed table reads right wherever it can be read. */
  lemma {:induction false} StoredIsRight(view: TreeTable, h: TreeHash, levels: nat)
    requires ContentAddressed(view) && StoredTo(view, h, levels)
    ensures RightTo(view, h, levels)
    decreases levels
  {
    if levels > 0 {
      forall n | IsTree(Get(h.entries, n)) ensures RightTo(view, h.entries[n].tree, levels - 1) {
        StoredIsRight(view, h.entries[n].tree, levels - 1);
      }
    }
  }

  lemma ClosedIsRight(view: TreeTable, h: TreeHash)
    requires ContentAddressed(view) && Closed(view) && h in view
    ensures RightTree(view, h)
  {
    forall t | Inside(h, t) ensures t in view {
      var levels: nat :| Contains(h, t, levels);
      ContainedIsStored(view, h, t, levels);
    }
  }

  lemma {:induction false} ContainedIsStored(view: TreeTable, h: TreeHash, t: TreeHash, levels: nat)
    requires ContentAddressed(view) && Closed(view) && h in view && Contains(h, t, levels)
    ensures t in view
    decreases levels
  {
    if h != t {
      var n :| n in h.entries && h.entries[n].Tree? && Contains(h.entries[n].tree, t, levels - 1);
      assert IsTree(Get(view[h], n));
      ContainedIsStored(view, h.entries[n].tree, t, levels - 1);
    }
  }

  lemma {:induction false} SeenInIsAt(view: TreeTable, h: TreeHash, p: Path, levels: nat)
    requires RightTo(view, h, levels) && |p| <= levels
    ensures SeenIn(view, h, p) == At(h, p)
    ensures p != [] ==> ResolveIn(view, h, p) == Resolve(h, p)
    decreases |p|
  {
    if p != [] && IsTree(Get(h.entries, p[0])) {
      SeenInIsAt(view, h.entries[p[0]].tree, p[1..], levels - 1);
    }
  }

  lemma FlatInIsFlat(view: TreeTable, h: TreeHash, levels: nat)
    requires RightTo(view, h, levels)
    ensures FlatIn(view, h, levels) == Flat(h, levels)
  {
    FlatInIsSeen(view, h, levels);
    forall p ensures Look(FlatIn(view, h, levels), p) == Look(Flat(h, levels), p) {
      assert Flattens(Flat(h, levels), h, levels);
      if |p| <= levels { SeenInIsAt(view, h, p, levels); }
    }
    SameFlatTree(FlatIn(view, h, levels), Flat(h, levels));
  }

  lemma {:induction false} ReachesIsContains(view: TreeTable, h: TreeHash, t: TreeHash, levels: nat)
    requires RightTree(view, h)
    ensures Reaches(view, h, t, levels) <==> Contains(h, t, levels)
    decreases levels
  {
    InsideItself(h);
    assert DirIn(view, h) == h.entries;
    if levels > 0 {
      forall n | n in h.entries && h.entries[n].Tree?
        ensures Reaches(view, h.entries[n].tree, t, levels - 1) <==> Contains(h.entries[n].tree, t, levels - 1)
      {
        RightChild(view, h, n);
        ReachesIsContains(view, h.entries[n].tree, t, levels - 1);
      }
      if h != t && Contains(h, t, levels) {
        var n :| n in h.entries && h.entries[n].Tree? && Contains(h.entries[n].tree, t, levels - 1);
        ReachesChild(view, h, n, t, levels);
      }
    }
  }

  lemma {:induction false} WithinViewIsWithinLevels(view: TreeTable, h: TreeHash, levels: nat)
    requires RightTree(view, h)
    ensures WithinView(view, h, levels) <==> WithinLevels(h, levels)
    decreases levels
  {
    InsideItself(h);
    assert DirIn(view, h) == h.entries;
    if levels > 0 {
      forall n | n in h.entries && h.entries[n].Tree?
        ensures WithinView(view, h.entries[n].tree, levels - 1) <==> WithinLevels(h.entries[n].tree, levels - 1)
        ensures IsTree(Get(DirIn(view, h), n))
      {
        RightChild(view, h, n);
        WithinViewIsWithinLevels(view, h.entries[n].tree, levels - 1);
      }
    }
  }
}
