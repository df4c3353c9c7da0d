/**
 * The cache in front of the tree table, with object identity.  `GetTree` hands out the cached object
 * itself and `writeHierarchy` edits that object in place and caches it under the new hash as well.  So an
 * edited directory keeps its old hash in the cache: whoever reads the old hash, in an old snapshot or at
 * another place of the tree just built, sees the edited directory.
 */
module TreeCache {
  import opened Wrappers
  import opened Paths
  import opened MerkleTrees
  import opened TreeMerge
  import opened TreeViews

  // ---------------------------------------------------------------- an edit as it is read

  function EntriesIn(view: TreeTable, root: Option<TreeHash>): Dir {
    if root.Some? then DirIn(view, root.value) else map[]
  }

  function BelowIn(view: TreeTable, root: Option<TreeHash>, n: Name): Option<TreeHash> {
    SubTree(Get(EntriesIn(view, root), n))
  }

  /** The directories that an edit reads, from the root down. */
  function ReadSpine(view: TreeTable, root: Option<TreeHash>, p: Path): set<TreeHash>
    requires p != []
    decreases |p|
  {
    (if root.Some? then {root.value} else {}) + (if |p| > 1 then ReadSpine(view, BelowIn(view, root, p[0]), p[1..]) else {})
  }

  /** The tree it builds from what it reads. */
  function Built(view: TreeTable, root: Option<TreeHash>, p: Path, e: Option<Entry>): TreeHash
    requires p != []
    decreases |p|
  {
    var entries := EntriesIn(view, root);
    if |p| > 1 then Digest(entries[p[0] := Tree(Built(view, BelowIn(view, root, p[0]), p[1..], e))])
    else if e.Some? then Digest(entries[p[0] := e.value])
    else Digest(entries - {p[0]})
  }

  /** The directories that it writes. */
  function BuiltSpine(view: TreeTable, root: Option<TreeHash>, p: Path, e: Option<Entry>): set<TreeHash>
    requires p != []
    decreases |p|
  {
    {Built(view, root, p, e)} + (if |p| > 1 then BuiltSpine(view, BelowIn(view, root, p[0]), p[1..], e) else {})
  }

  /** It turns the object that is read for `h` into the directory `h'`. */
  predicate BuiltFrom(view: TreeTable, root: Option<TreeHash>, p: Path, e: Option<Entry>, h: TreeHash, h': TreeHash)
    requires p != []
    decreases |p|
  {
    || (root == Some(h) && h' == Built(view, root, p, e))
    || (|p| > 1 && BuiltFrom(view, BelowIn(view, root, p[0]), p[1..], e, h, h'))
  }

  lemma {:induction false} SpineBuilt(view: TreeTable, root: Option<TreeHash>, p: Path, e: Option<Entry>, h: TreeHash)
    returns (h': TreeHash)
    requires p != [] && h in ReadSpine(view, root, p)
    ensures BuiltFrom(view, root, p, e, h, h')
    decreases |p|
  {
    if root == Some(h) {
      h' := Built(view, root, p, e);
    } else {
      h' := SpineBuilt(view, BelowIn(view, root, p[0]), p[1..], e, h);
    }
  }

  lemma {:induction false} BuiltFromSpine(view: TreeTable, root: Option<TreeHash>, p: Path, e: Option<Entry>,
                                          h: TreeHash, h': TreeHash)
    requires p != [] && BuiltFrom(view, root, p, e, h, h')
    ensures h in ReadSpine(view, root, p) && h' in BuiltSpine(view, root, p, e)
    decreases |p|
  {
    if !(root == Some(h) && h' == Built(view, root, p, e)) {
      BuiltFromSpine(view, BelowIn(view, root, p[0]), p[1..], e, h, h');
    }
  }

  /**
   * What is read for `seen` agrees with `root` off the path, from directory to directory; on the path it
   * does not matter what is read, since it is overwritten.
   */
  predicate AgreesOff(view: TreeTable, seen: Option<TreeHash>, root: Option<TreeHash>, p: Path)
    requires p != []
    decreases |p|
  {
    && EntriesIn(view, seen) - {p[0]} == Entries(root) - {p[0]}
    && (|p| > 1 ==> AgreesOff(view, BelowIn(view, seen, p[0]), Below(root, p[0]), p[1..]))
  }

  /** The result of an edit is the edited tree exactly when the directories on its way read right off the path. */
  lemma {:induction false} BuiltIsEditExactlyWhen(view: TreeTable, seen: Option<TreeHash>, root: Option<TreeHash>,
                                                  p: Path, e: Option<Entry>)
    requires p != []
    ensures Built(view, seen, p, e) == Edit(root, p, e) <==> AgreesOff(view, seen, root, p)
    decreases |p|
  {
    var n, a, b := p[0], EntriesIn(view, seen), Entries(root);
    if |p| > 1 {
      var x, y := Tree(Built(view, BelowIn(view, seen, n), p[1..], e)), Tree(Edit(Below(root, n), p[1..], e));
      BuiltIsEditExactlyWhen(view, BelowIn(view, seen, n), Below(root, n), p[1..], e);
      SamePut(a, b, n, x, y);
    } else if e.Some? {
      SamePut(a, b, n, e.value, e.value);
    }
  }

  lemma SamePut(a: Dir, b: Dir, n: Name, x: Entry, y: Entry)
    ensures a[n := x] == b[n := y] <==> a - {n} == b - {n} && x == y
  {
    if a[n := x] == b[n := y] {
      assert a - {n} == a[n := x] - {n} == b[n := y] - {n} == b - {n};
      assert x == a[n := x][n] == b[n := y][n] == y;
    }
    if a - {n} == b - {n} && x == y {
      assert a[n := x] == (a - {n})[n := x] == (b - {n})[n := y] == b[n := y];
    }
  }

  // ---------------------------------------------------------------- the directories on the way of an edit

  function Below(root: Option<TreeHash>, n: Name): Option<TreeHash> {
    SubTree(Get(Entries(root), n))
  }

  /** The directories that an edit reads, from the root down. */
  function OldSpine(root: Option<TreeHash>, p: Path): set<TreeHash>
    requires p != []
    decreases |p|
  {
    (if root.Some? then {root.value} else {}) + (if |p| > 1 then OldSpine(Below(root, p[0]), p[1..]) else {})
  }

  /** The directories that an edit writes. */
  function NewSpine(root: Option<TreeHash>, p: Path, e: Option<Entry>): set<TreeHash>
    requires p != []
    decreases |p|
  {
    {Edit(root, p, e)} + (if |p| > 1 then NewSpine(Below(root, p[0]), p[1..], e) else {})
  }

  /** The edit turns its directory `h` into `h'`. */
  predicate Becomes(root: Option<TreeHash>, p: Path, e: Option<Entry>, h: TreeHash, h': TreeHash)
    requires p != []
    decreases |p|
  {
    || (root == Some(h) && h' == Edit(root, p, e))
    || (|p| > 1 && Becomes(Below(root, p[0]), p[1..], e, h, h'))
  }

  lemma {:induction false} SpineBecomes(root: Option<TreeHash>, p: Path, e: Option<Entry>, h: TreeHash) returns (h': TreeHash)
    requires p != [] && h in OldSpine(root, p)
    ensures Becomes(root, p, e, h, h')
    decreases |p|
  {
    if root == Some(h) {
      h' := Edit(root, p, e);
    } else {
      h' := SpineBecomes(Below(root, p[0]), p[1..], e, h);
    }
  }

  lemma {:induction false} BecomesSpine(root: Option<TreeHash>, p: Path, e: Option<Entry>, h: TreeHash, h': TreeHash)
    requires p != [] && Becomes(root, p, e, h, h')
    ensures h in OldSpine(root, p) && h' in NewSpine(root, p, e)
    decreases |p|
  {
    if !(root == Some(h) && h' == Edit(root, p, e)) {
      BecomesSpine(Below(root, p[0]), p[1..], e, h, h');
    }
  }

  /** Everything on the way is the root or smaller. */
  lemma {:induction false} SpineBelow(root: TreeHash, p: Path, h: TreeHash)
    requires p != [] && h in OldSpine(Some(root), p)
    ensures h == root || h < root
    decreases |p|
  {
    if h != root {
      var n := p[0];
      var below := Below(Some(root), n);
      if below.None? {
        EmptySpine(p[1..]);
      } else {
        SpineBelow(below.value, p[1..], h);
        assert root.entries[n] < root;
      }
    }
  }

  lemma {:induction false} EmptySpine(p: Path)
    requires p != []
    ensures OldSpine(None, p) == {}
    decreases |p|
  {
    if |p| > 1 { EmptySpine(p[1..]); }
  }

  lemma RootOnlyOnTop(root: TreeHash, p: Path)
    requires |p| > 1
    ensures root !in OldSpine(Below(Some(root), p[0]), p[1..])
  {
    var below := Below(Some(root), p[0]);
    if below.None? {
      EmptySpine(p[1..]);
    } else {
      assert root.entries[p[0]] < root;
      if root in OldSpine(below, p[1..]) {
        SpineBelow(below.value, p[1..], root);
      }
    }
  }

  /** Where the directories on the way read right, the edit reads and writes what `Edit` says. */
  lemma {:induction false} RightSpine(view: TreeTable, root: Option<TreeHash>, p: Path, e: Option<Entry>)
    requires p != [] && forall h | h in OldSpine(root, p) && h in view :: view[h] == h.entries
    ensures ReadSpine(view, root, p) <= OldSpine(root, p)
    ensures ReadSpine(view, root, p) <= view.Keys <==> OldSpine(root, p) <= view.Keys
    ensures OldSpine(root, p) <= view.Keys ==>
              && ReadSpine(view, root, p) == OldSpine(root, p)
              && Built(view, root, p, e) == Edit(root, p, e) && BuiltSpine(view, root, p, e) == NewSpine(root, p, e)
    decreases |p|
  {
    if |p| > 1 {
      var n := p[0];
      if root.Some? && root.value !in view {
        EmptyReadSpine(view, p[1..]);
      } else {
        assert EntriesIn(view, root) == Entries(root);
        RightSpine(view, Below(root, n), p[1..], e);
      }
    }
  }

  lemma {:induction false} EmptyReadSpine(view: TreeTable, p: Path)
    requires p != []
    ensures ReadSpine(view, None, p) == {}
    decreases |p|
  {
    if |p| > 1 { EmptyReadSpine(view, p[1..]); }
  }

  lemma {:induction false} RightBecomes(view: TreeTable, root: Option<TreeHash>, p: Path, e: Option<Entry>,
                                        h: TreeHash, h': TreeHash)
    requires p != [] && forall h | h in OldSpine(root, p) :: h in view && view[h] == h.entries
    ensures BuiltFrom(view, root, p, e, h, h') <==> Becomes(root, p, e, h, h')
    decreases |p|
  {
    RightSpine(view, root, p, e);
    if |p| > 1 {
      assert EntriesIn(view, root) == Entries(root);
      RightBecomes(view, Below(root, p[0]), p[1..], e, h, h');
    }
  }

  /** A lookup that finds only directories that read right on its way finds the file that is there. */
  lemma {:induction false} RightSpineSeen(view: TreeTable, h: TreeHash, p: Path)
    requires p != [] && forall d | d in OldSpine(Some(h), p) :: d in view && view[d] == d.entries
    ensures SeenIn(view, h, p) == At(h, p)
    decreases |p|
  {
    if |p| > 1 && IsTree(Get(h.entries, p[0])) {
      RightSpineSeen(view, h.entries[p[0]].tree, p[1..]);
    }
  }

  lemma RightBuilt(view: TreeTable, root: Option<TreeHash>, p: Path, e: Option<Entry>)
    requires p != [] && forall h | h in OldSpine(root, p) :: h in view && view[h] == h.entries
    ensures forall h, h' | Becomes(root, p, e, h, h') :: BuiltFrom(view, root, p, e, h, h')
  {
    forall h, h' | Becomes(root, p, e, h, h') ensures BuiltFrom(view, root, p, e, h, h') {
      RightBecomes(view, root, p, e, h, h');
    }
  }

  /** The directories on the way that the edited tree does not write again. */
  function Displaced(root: Option<TreeHash>, p: Path, e: Option<Entry>): set<TreeHash>
    requires p != []
  {
    OldSpine(root, p) - NewSpine(root, p, e)
  }

  /** No such directory occurs elsewhere in the edited tree. */
  ghost predicate Clean(root: Option<TreeHash>, p: Path, e: Option<Entry>)
    requires p != []
  {
    forall h | h in Displaced(root, p, e) :: !Inside(Edit(root, p, e), h)
  }

  ghost predicate InTree(root: Option<TreeHash>, h: TreeHash) {
    root.Some? && Inside(root.value, h)
  }

  lemma {:induction false} SpineInside(root: Option<TreeHash>, p: Path, h: TreeHash)
    requires p != [] && h in OldSpine(root, p)
    ensures InTree(root, h)
    decreases |p|
  {
    if root == Some(h) {
      InsideItself(h);
    } else {
      var below := Below(root, p[0]);
      if below.None? { EmptySpine(p[1..]); }
      SpineInside(below, p[1..], h);
      InsideChild(root.value, p[0], h);
    }
  }

  /** The new directories are in the edited tree, and it has no others but those of the old tree. */
  lemma {:induction false} InsideEdited(root: Option<TreeHash>, p: Path, e: Option<Entry>, h: TreeHash)
    requires p != [] && !IsTree(e) && Inside(Edit(root, p, e), h)
    ensures h in NewSpine(root, p, e) || InTree(root, h)
    decreases |p|
  {
    var r := Edit(root, p, e);
    if h != r {
      var n := InsideStep(r, h);
      if n == p[0] && |p| > 1 {
        InsideEdited(Below(root, n), p[1..], e, h);
        if h !in NewSpine(root, p, e) { InsideChild(root.value, n, h); }
      } else {
        InsideChild(root.value, n, h);
      }
    }
  }

  lemma {:induction false} NewSpineInside(root: Option<TreeHash>, p: Path, e: Option<Entry>, h: TreeHash)
    requires p != [] && h in NewSpine(root, p, e)
    ensures Inside(Edit(root, p, e), h)
    decreases |p|
  {
    var r := Edit(root, p, e);
    if h == r {
      InsideItself(r);
    } else {
      NewSpineInside(Below(root, p[0]), p[1..], e, h);
      InsideChild(r, p[0], h);
    }
  }

  datatype PathEdit = PathEdit(path: Path, entry: Option<Entry>)

  /** Every edit of the run is clean for the tree it edits. */
  ghost predicate CleanRun(root: Option<TreeHash>, edits: seq<PathEdit>)
    decreases |edits|
  {
    edits == [] ||
    (&& edits[0].path != [] && !IsTree(edits[0].entry)
     && Clean(root, edits[0].path, edits[0].entry)
     && CleanRun(Some(Edit(root, edits[0].path, edits[0].entry)), edits[1..]))
  }

  function EditedBy(root: Option<TreeHash>, edits: seq<PathEdit>): Option<TreeHash>
    decreases |edits|
  {
    if edits == [] || edits[0].path == [] then root
    else EditedBy(Some(Edit(root, edits[0].path, edits[0].entry)), edits[1..])
  }

  // ---------------------------------------------------------------- what reads wrongly

  datatype Status = Status(known: set<TreeHash>, wrong: set<TreeHash>)

  /** The directories on the way can be read, and none of them reads wrongly. */
  predicate Safe(st: Status, root: Option<TreeHash>, p: Path)
    requires p != []
  {
    OldSpine(root, p) <= st.known - st.wrong
  }

  function After(st: Status, root: Option<TreeHash>, p: Path, e: Option<Entry>): Status
    requires p != []
  {
    Status(st.known + NewSpine(root, p, e), (st.wrong + Displaced(root, p, e)) - NewSpine(root, p, e))
  }

  /** The hash reads as the status says. */
  predicate ReadAs(st: Status, h: TreeHash, dir: Option<Dir>) {
    (h in st.known <==> dir.Some?) && (h in st.known && dir.Some? ==> (h in st.wrong <==> dir.value != h.entries))
  }

  /** A directory that now reads as another one reads wrongly, as it did before or would not be shared. */
  lemma OtherReads(before: Option<Dir>, after: Option<Dir>, d: TreeHash, st: Status, news: set<TreeHash>)
    requires ReadAs(st, d, before) && d !in news && SameOr(before, after, news) && (before == None ==> after == None)
    requires before == Some(d.entries) ==> after == before
    ensures ReadAs(st, d, after)
  {
    if after != before {
      var d' :| d' in news && after == Some(d'.entries);
      assert d' != d && d'.entries != d.entries;
    }
  }

  datatype RootEdit = RootEdit(root: Option<TreeHash>, path: Path, entry: Option<Entry>)

  function ResultOf(e: RootEdit): TreeHash {
    if e.path == [] then Digest(map[]) else Edit(e.root, e.path, e.entry)
  }

  predicate SafeRun(st: Status, edits: seq<RootEdit>)
    decreases |edits|
  {
    edits == [] ||
    (&& edits[0].path != [] && Safe(st, edits[0].root, edits[0].path)
     && SafeRun(After(st, edits[0].root, edits[0].path, edits[0].entry), edits[1..]))
  }

  function AfterRun(st: Status, edits: seq<RootEdit>): Status
    decreases |edits|
  {
    if edits == [] || edits[0].path == [] then st
    else AfterRun(After(st, edits[0].root, edits[0].path, edits[0].entry), edits[1..])
  }

  // ---------------------------------------------------------------- the cache

  /** A JavaScript object holding directory entries. */
  class DirObject {
    var entries: Dir

    constructor (entries: Dir)
      ensures this.entries == entries
    {
      this.entries := entries;
    }
  }

  /** The rows that store these directories. */
  function RowsFor(hs: set<TreeHash>): TreeTable {
    map h | h in hs :: h.entries
  }

  type Objects = map<TreeHash, DirObject>

  function PutTop(t: Objects, root: Option<TreeHash>, o: DirObject): Objects {
    if root.Some? then t[root.value := o] else t
  }

  /** The objects that these directories are cached in. */
  ghost function ObjectsAt(cache: Objects, hs: set<TreeHash>): set<DirObject> {
    set h | h in hs && h in cache :: cache[h]
  }

  /** The directories on the way in the order in which they are read. */
  function ReadWay(view: TreeTable, root: Option<TreeHash>, p: Path): seq<TreeHash>
    requires p != []
    decreases |p|
  {
    (if root.Some? then [root.value] else []) + (if |p| > 1 then ReadWay(view, BelowIn(view, root, p[0]), p[1..]) else [])
  }

  lemma {:induction false} WayIsSpine(view: TreeTable, root: Option<TreeHash>, p: Path)
    requires p != []
    ensures forall h :: h in ReadWay(view, root, p) <==> h in ReadSpine(view, root, p)
    decreases |p|
  {
    if |p| > 1 {
      WayIsSpine(view, BelowIn(view, root, p[0]), p[1..]);
    }
  }

  /** No directory on the way, and no object, comes twice. */
  ghost predicate Separate(cache: Objects, way: seq<TreeHash>) {
    forall i, j | 0 <= i < j < |way| :: Apart(cache, way[i], way[j])
  }

  predicate Apart(cache: Objects, h: TreeHash, k: TreeHash) {
    h != k && (h in cache && k in cache ==> cache[h] != cache[k])
  }

  lemma SeparateTail(cache: Objects, h: TreeHash, way: seq<TreeHash>)
    requires Separate(cache, [h] + way)
    ensures Separate(cache, way) && forall k | k in way :: Apart(cache, h, k)
  {
    var longer := [h] + way;
    forall i | 0 <= i < |way| ensures Apart(cache, h, way[i]) {
      assert longer[0] == h && longer[i + 1] == way[i];
    }
    forall i, j | 0 <= i < j < |way| ensures Apart(cache, way[i], way[j]) {
      assert longer[i + 1] == way[i] && longer[j + 1] == way[j];
    }
  }

  /** Below the first directory the way is separate, and it does not come back to the first. */
  lemma SeparateBelow(cache: Objects, cache': Objects, view: TreeTable, root: Option<TreeHash>, p: Path)
    requires |p| > 1 && Separate(cache, ReadWay(view, root, p))
    requires forall h | root != Some(h) :: (h in cache <==> h in cache') && (h in cache ==> cache[h] == cache'[h])
    ensures var below, rest := BelowIn(view, root, p[0]), p[1..];
            && Separate(cache', ReadWay(view, below, rest))
            && ObjectsAt(cache', ReadSpine(view, below, rest)) == ObjectsAt(cache, ReadSpine(view, below, rest))
            && (root.Some? ==> root.value !in ReadSpine(view, below, rest))
            && (root.Some? && root.value in cache ==> cache[root.value] !in ObjectsAt(cache, ReadSpine(view, below, rest)))
  {
    var below, rest := BelowIn(view, root, p[0]), p[1..];
    var lower, spine := ReadWay(view, below, rest), ReadSpine(view, below, rest);
    WayIsSpine(view, below, rest);
    if root.Some? {
      SeparateTail(cache, root.value, lower);
      assert forall k | k in spine :: k in lower && Apart(cache, root.value, k);
      NotInObjects(cache, root.value, spine);
    } else {
      assert ReadWay(view, root, p) == lower;
    }
    SameObjects(cache, cache', spine);
    SeparateSame(cache, cache', lower);
  }

  lemma NotInObjects(cache: Objects, h: TreeHash, hs: set<TreeHash>)
    requires forall k | k in hs :: Apart(cache, h, k)
    ensures h !in hs && (h in cache ==> cache[h] !in ObjectsAt(cache, hs))
  {
    assert h in hs ==> Apart(cache, h, h);
  }

  lemma SameObjects(cache: Objects, cache': Objects, hs: set<TreeHash>)
    requires forall h | h in hs :: (h in cache <==> h in cache') && (h in cache ==> cache[h] == cache'[h])
    ensures ObjectsAt(cache', hs) == ObjectsAt(cache, hs)
  {
  }

  lemma SeparateSame(cache: Objects, cache': Objects, way: seq<TreeHash>)
    requires Separate(cache, way)
    requires forall h | h in way :: (h in cache <==> h in cache') && (h in cache ==> cache[h] == cache'[h])
    ensures Separate(cache', way)
  {
    forall i, j | 0 <= i < j < |way| ensures Apart(cache', way[i], way[j]) {
      assert Apart(cache, way[i], way[j]) && way[i] in way && way[j] in way;
    }
  }

  /** Directories on the way that read right are different, and so are their objects. */
  lemma {:induction false} RightIsSeparate(cache: Objects, view: TreeTable, root: Option<TreeHash>, p: Path)
    requires p != [] && forall h | h in OldSpine(root, p) && h in view :: view[h] == h.entries
    requires forall h, h' | h in OldSpine(root, p) && h' in OldSpine(root, p) && h in cache && h' in cache && h != h' ::
               cache[h] != cache[h']
    ensures Separate(cache, ReadWay(view, root, p))
    decreases |p|
  {
    if |p| > 1 {
      var below, rest := BelowIn(view, root, p[0]), p[1..];
      WayIsSpine(view, below, rest);
      if root.Some? && root.value !in view {
        EmptyReadSpine(view, rest);
        assert ReadWay(view, root, p) == [root.value] by { EmptyWay(view, rest); }
      } else {
        assert EntriesIn(view, root) == Entries(root);
        RightSpine(view, below, rest, None);
        RightIsSeparate(cache, view, below, rest);
        if root.Some? {
          RootOnlyOnTop(root.value, p);
          FirstIsSeparate(cache, root.value, ReadWay(view, below, rest));
        } else {
          assert ReadWay(view, root, p) == ReadWay(view, below, rest);
        }
      }
    }
  }

  lemma {:induction false} EmptyWay(view: TreeTable, p: Path)
    requires p != []
    ensures ReadWay(view, None, p) == []
    decreases |p|
  {
    if |p| > 1 { EmptyWay(view, p[1..]); }
  }

  lemma FirstIsSeparate(cache: Objects, h: TreeHash, way: seq<TreeHash>)
    requires Separate(cache, way) && forall k | k in way :: Apart(cache, h, k)
    ensures Separate(cache, [h] + way)
  {
    var longer := [h] + way;
    forall i, j | 0 <= i < j < |longer| ensures Apart(cache, longer[i], longer[j]) {
      assert longer[j] == way[j - 1] && longer[j] in way;
      if i > 0 { assert longer[i] == way[i - 1]; }
    }
  }

  /** Where the objects come from: touched ones from the cache or new, written ones touched or new. */
  ghost predicate From(cache: Objects, t: Objects, w: Objects, news: set<DirObject>) {
    && (forall h | h in t :: if h in cache then t[h] == cache[h] else t[h] in news)
    && (forall h | h in w :: w[h] in t.Values || w[h] in news)
  }

  ghost function NewObjects(cache: Objects, root: Option<TreeHash>, o: DirObject, news: set<DirObject>): set<DirObject> {
    if root.Some? && root.value in cache then news else news + {o}
  }

  lemma FromOneMore(cache: Objects, root: Option<TreeHash>, o: DirObject, t: Objects, w: Objects, h: TreeHash,
                    news: set<DirObject>)
    requires From(PutTop(cache, root, o), t, w, news)
    requires root.Some? ==> root.value !in t && (root.value in cache ==> cache[root.value] == o)
    ensures From(cache, PutTop(t, root, o), w[h := o], NewObjects(cache, root, o, news))
  {
    var t' := PutTop(t, root, o);
    forall x | x in t.Values ensures x in t'.Values {
      var k :| k in t && t[k] == x;
      assert t'[k] == x;
    }
    assert root.Some? ==> t'[root.value] == o;
  }

  lemma NotAmong(cache: Objects, t: Objects, w: Objects, news: set<DirObject>, o: DirObject)
    requires From(cache, t, w, news) && o !in ObjectsAt(cache, t.Keys) && o !in news
    ensures o !in t.Values && o !in w.Values
  {
  }

  lemma CachedObjects(cache: Objects, t: Objects, w: Objects, news: set<DirObject>)
    requires From(cache, t, w, news)
    ensures var now := cache + t + w; forall h | h in now :: now[h] in cache.Values || now[h] in news
  {
    forall h | h in w && w[h] !in news ensures w[h] in cache.Values {
      var h' :| h' in t && t[h'] == w[h];
    }
  }

  lemma CacheOneMore(cache: Objects, root: Option<TreeHash>, o: DirObject, t: Objects, w: Objects, h: TreeHash)
    requires root.Some? ==> root.value !in t
    ensures (PutTop(cache, root, o) + t + w)[h := o] == cache + PutTop(t, root, o) + w[h := o]
    ensures PutTop(cache, root, o) + map[] + map[] == PutTop(cache, root, o)
  {
  }

  lemma RowsOneMore(trees: TreeTable, w: Objects, h: TreeHash, o: DirObject)
    ensures (trees + RowsFor(w.Keys))[h := h.entries] == trees + RowsFor(w[h := o].Keys)
    ensures trees + RowsFor({}) == trees
  {
    assert w[h := o].Keys == w.Keys + {h};
  }

  /** Each touched object holds what was built from it, each written one its own directory. */
  ghost predicate Edited(view: TreeTable, root: Option<TreeHash>, p: Path, e: Option<Entry>, touched: Objects, written: Objects)
    requires p != []
    reads touched.Values, written.Values
  {
    && touched.Keys == ReadSpine(view, root, p) && written.Keys == BuiltSpine(view, root, p, e)
    && (forall h | h in written :: written[h].entries == h.entries)
    && (forall h, h' | BuiltFrom(view, root, p, e, h, h') :: h in touched && touched[h].entries == h'.entries)
  }

  lemma EditedOneMore(view: TreeTable, root: Option<TreeHash>, p: Path, e: Option<Entry>, o: DirObject, t: Objects, w: Objects)
    requires p != [] && o.entries == Built(view, root, p, e).entries && (root.Some? ==> root.value !in t)
    requires if |p| > 1 then Edited(view, BelowIn(view, root, p[0]), p[1..], e, t, w) else t == map[] && w == map[]
    ensures Edited(view, root, p, e, PutTop(t, root, o), w[Built(view, root, p, e) := o])
  {
    forall h, h' | BuiltFrom(view, root, p, e, h, h')
      ensures h in PutTop(t, root, o) && PutTop(t, root, o)[h].entries == h'.entries
    {
      if |p| > 1 && BuiltFrom(view, BelowIn(view, root, p[0]), p[1..], e, h, h') {
        assert h in t;
      }
    }
  }

  /** Readers get what they got, or one of the directories in `hs`. */
  ghost predicate SameOr(before: Option<Dir>, after: Option<Dir>, hs: set<TreeHash>) {
    after == before || exists h :: h in hs && after == Some(h.entries)
  }

  class CachedTreeStore {
    var trees: TreeTable
    var cache: Objects

    constructor ()
      ensures trees == map[] && cache == map[]
    {
      trees, cache := map[], map[];
    }

    /** What a reader of `h` gets. */
    function Reads(h: TreeHash): Option<Dir>
      reads this, cache.Values
    {
      if h in cache then Some(cache[h].entries) else if h in trees then Some(trees[h]) else None
    }

    /** What readers see. */
    function View(): TreeTable
      reads this, cache.Values
    {
      map h | h in cache.Keys + trees.Keys :: if h in cache then cache[h].entries else trees[h]
    }

    /** Readers see this view. */
    ghost predicate Shows(view: TreeTable)
      reads this, cache.Values
    {
      && view.Keys == cache.Keys + trees.Keys
      && (forall h | h in cache :: view[h] == cache[h].entries)
      && (forall h | h in trees && h !in cache :: view[h] == trees[h])
    }

    lemma ViewReads(h: TreeHash)
      ensures h in View() <==> Reads(h).Some?
      ensures DirIn(View(), h) == if Reads(h).Some? then Reads(h).value else map[]
    {
    }

    /** A hit returns the cached object; a miss caches the object it returns. */
    method GetTree(h: TreeHash) returns (r: Option<DirObject>)
      modifies this`cache
      ensures r.Some? <==> old(Reads(h)).Some?
      ensures r.Some? ==> r.value.entries == old(Reads(h)).value && cache == old(cache)[h := r.value]
      ensures r.Some? ==> if h in old(cache) then r.value == old(cache)[h] else fresh(r.value)
      ensures r.None? ==> cache == old(cache)
    {
      if h in cache {
        assert cache == cache[h := cache[h]];
        return Some(cache[h]);
      }
      if h !in trees {
        return None;
      }
      var o := new DirObject(trees[h]);
      cache := cache[h := o];
      r := Some(o);
    }

    /** Stores the entries and caches the same object under the new hash. */
    method WriteTree(o: DirObject) returns (h: TreeHash)
      modifies this
      ensures h == Digest(o.entries)
      ensures trees == old(trees)[h := o.entries] && cache == old(cache)[h := o]
    {
      h := Digest(o.entries);
      trees := trees[h := o.entries];
      cache := cache[h := o];
    }

    /** Readers of `h` get its own entries, or nothing. */
    ghost predicate Honest(h: TreeHash)
      reads this, cache.Values
    {
      Reads(h).Some? ==> Reads(h).value == h.entries
    }

    /** Every one of these directories can be read. */
    ghost predicate SpineReadable(hs: set<TreeHash>)
      reads this, cache.Values
    {
      forall h | h in hs :: Reads(h).Some?
    }

    /** What the tables hold, read through the objects as they are after an edit. */
    lemma AfterEdit(view: TreeTable, root: Option<TreeHash>, path: Path, entry: Option<Entry>, touched: Objects,
                    written: Objects, cache0: Objects, trees0: TreeTable, news: set<DirObject>)
      requires path != [] && Edited(view, root, path, entry, touched, written) && From(cache0, touched, written, news)
      requires cache == cache0 + touched + written && trees == trees0 + RowsFor(written.Keys)
      ensures forall h | h in BuiltSpine(view, root, path, entry) :: Reads(h) == Some(h.entries)
      ensures forall h, h' | BuiltFrom(view, root, path, entry, h, h') && h !in BuiltSpine(view, root, path, entry) ::
                Reads(h) == Some(h'.entries) && h' in BuiltSpine(view, root, path, entry)
      ensures forall h | h !in ReadSpine(view, root, path) && h !in BuiltSpine(view, root, path, entry) ::
                && Reads(h) == (if h in cache0 then Some(cache0[h].entries) else if h in trees0 then Some(trees0[h]) else None)
                && (h in cache0 && cache0[h] in ObjectsAt(cache0, ReadSpine(view, root, path)) ==>
                      BuiltReads(view, root, path, entry, h))
    {
      forall h, h' | BuiltFrom(view, root, path, entry, h, h') ensures h' in BuiltSpine(view, root, path, entry) {
        BuiltFromSpine(view, root, path, entry, h, h');
      }
      forall h | h !in ReadSpine(view, root, path) && h !in BuiltSpine(view, root, path, entry)
                 && h in cache0 && cache0[h] in ObjectsAt(cache0, ReadSpine(view, root, path))
        ensures BuiltReads(view, root, path, entry, h)
      {
        var k :| k in ReadSpine(view, root, path) && k in cache0 && cache0[k] == cache0[h];
        var k' := SpineBuilt(view, root, path, entry, k);
        assert touched[k] == cache0[h];
      }
    }

    /** Readers of `h` get one of the directories just built. */
    ghost predicate BuiltReads(view: TreeTable, root: Option<TreeHash>, path: Path, entry: Option<Entry>, h: TreeHash)
      requires path != []
      reads this, cache.Values
    {
      exists h' :: h' in BuiltSpine(view, root, path, entry) && Reads(h) == Some(h'.entries)
    }

    /** A directory that reads right has no object in common with others that do. */
    lemma NotShared(hs: set<TreeHash>)
      requires forall h | h in hs :: Honest(h)
      ensures forall h | h in cache && h !in hs && Honest(h) :: cache[h] !in ObjectsAt(cache, hs)
      ensures forall h, h' | h in hs && h' in hs && h in cache && h' in cache && h != h' :: cache[h] != cache[h']
      ensures forall h | h in hs && h in View() :: View()[h] == h.entries
    {
      forall h | h in hs && h in View() ensures View()[h] == h.entries {
        assert Honest(h);
      }
    }

    /**
     * `writeHierarchy` on cached objects, whatever they hold.  The new hash is the tree built from what is
     * read.  `touched` are the objects of the directories on the way, `written` those that are cached under
     * the new hashes: the new directories read as themselves, but each touched object now holds what was
     * built from it.
     */
    method WriteHierarchy(root: Option<TreeHash>, path: Path, entry: Option<Entry>, ghost view: TreeTable)
      returns (r: Option<TreeHash>, ghost touched: Objects, ghost written: Objects, ghost news: set<DirObject>)
      requires path != [] && Shows(view) && Separate(cache, ReadWay(view, root, path))
      modifies this, ObjectsAt(cache, ReadSpine(view, root, path))
      ensures r.Some? <==> ReadSpine(view, root, path) <= view.Keys
      ensures r.None? ==> trees == old(trees) && Shows(view)
      ensures r.Some? ==> r.value == Built(view, root, path, entry) && Edited(view, root, path, entry, touched, written)
      ensures r.Some? ==> cache == old(cache) + touched + written
      ensures r.Some? ==> trees == old(trees) + RowsFor(written.Keys)
      ensures fresh(news) && From(old(cache), touched, written, news)
      decreases |path|, 1
    {
      if |path| == 1 {
        r, touched, written, news := WriteName(root, path, entry, view);
      } else {
        r, touched, written, news := WriteBelow(root, path, entry, view);
      }
    }

    /** The part of `writeHierarchy` for a longer path. */
    method WriteBelow(root: Option<TreeHash>, path: Path, entry: Option<Entry>, ghost view: TreeTable)
      returns (r: Option<TreeHash>, ghost touched: Objects, ghost written: Objects, ghost news: set<DirObject>)
      requires |path| > 1 && Shows(view) && Separate(cache, ReadWay(view, root, path))
      modifies this, ObjectsAt(cache, ReadSpine(view, root, path))
      ensures r.Some? <==> ReadSpine(view, root, path) <= view.Keys
      ensures r.None? ==> trees == old(trees) && Shows(view)
      ensures r.Some? ==> r.value == Built(view, root, path, entry) && Edited(view, root, path, entry, touched, written)
      ensures r.Some? ==> cache == old(cache) + touched + written
      ensures r.Some? ==> trees == old(trees) + RowsFor(written.Keys)
      ensures fresh(news) && From(old(cache), touched, written, news)
      decreases |path|, 0
    {
      touched, written, news := map[], map[], {};
      var name := path[0];
      var o := Open(root, view);
      if o.None? {
        return None, touched, written, news;
      }
      ghost var isNew := root.None? || root.value !in old(cache);
      assert isNew ==> fresh(o.value);
      var below := SubTree(Get(o.value.entries, name));
      SeparateBelow(old(cache), cache, view, root, path);
      ghost var t, w, inner;
      r, t, w, inner := EditBelow(o.value, name, below, path[1..], entry, view);
      news := if isNew then inner + {o.value} else inner;
      assert fresh(news);
      if r.Some? {
        FromOneMore(old(cache), root, o.value, t, w, r.value, inner);
        EditedOneMore(view, root, path, entry, o.value, t, w);
        CacheOneMore(old(cache), root, o.value, t, w, r.value);
        RowsOneMore(old(trees), w, r.value, o.value);
        touched, written := PutTop(t, root, o.value), w[r.value := o.value];
      }
    }

    /** The part of `writeHierarchy` for a path of one component. */
    method WriteName(root: Option<TreeHash>, path: Path, entry: Option<Entry>, ghost view: TreeTable)
      returns (r: Option<TreeHash>, ghost touched: Objects, ghost written: Objects, ghost news: set<DirObject>)
      requires |path| == 1 && Shows(view)
      modifies this, ObjectsAt(cache, ReadSpine(view, root, path))
      ensures r.Some? <==> ReadSpine(view, root, path) <= view.Keys
      ensures r.None? ==> trees == old(trees) && Shows(view)
      ensures r.Some? ==> r.value == Built(view, root, path, entry) && Edited(view, root, path, entry, touched, written)
      ensures r.Some? ==> cache == old(cache) + touched + written
      ensures r.Some? ==> trees == old(trees) + RowsFor(written.Keys)
      ensures fresh(news) && From(old(cache), touched, written, news)
    {
      touched, written, news := map[], map[], {};
      var o := Open(root, view);
      if o.None? {
        return None, touched, written, news;
      }
      ghost var isNew := root.None? || root.value !in old(cache);
      assert isNew ==> fresh(o.value);
      var h := Close(o.value, path[0], entry);
      EditedOneMore(view, root, path, entry, o.value, map[], map[]);
      CacheOneMore(old(cache), root, o.value, map[], map[], h);
      RowsOneMore(old(trees), map[], h, o.value);
      FromOneMore(old(cache), root, o.value, map[], map[], h, {});
      r, touched, written := Some(h), PutTop(map[], root, o.value), map[][h := o.value];
      news := if isNew then {o.value} else {};
    }

    /** Edits the directory below and then the object itself. */
    method EditBelow(o: DirObject, name: Name, below: Option<TreeHash>, rest: Path, entry: Option<Entry>, ghost view: TreeTable)
      returns (r: Option<TreeHash>, ghost touched: Objects, ghost written: Objects, ghost news: set<DirObject>)
      requires rest != [] && Shows(view) && Separate(cache, ReadWay(view, below, rest))
      requires o !in ObjectsAt(cache, ReadSpine(view, below, rest))
      modifies this, o, ObjectsAt(cache, ReadSpine(view, below, rest))
      ensures r.Some? <==> ReadSpine(view, below, rest) <= view.Keys
      ensures r.None? ==> trees == old(trees) && Shows(view)
      ensures r.Some? ==> r.value.entries == o.entries == old(o.entries)[name := Tree(Built(view, below, rest, entry))]
      ensures r.Some? ==> Edited(view, below, rest, entry, touched, written)
      ensures r.Some? ==> cache == (old(cache) + touched + written)[r.value := o]
      ensures r.Some? ==> trees == (old(trees) + RowsFor(written.Keys))[r.value := r.value.entries]
      ensures fresh(news) && From(old(cache), touched, written, news)
      decreases |rest|, 2
    {
      var newSubTree;
      newSubTree, touched, written, news := WriteHierarchy(below, rest, entry, view);
      if newSubTree.None? {
        return None, map[], map[], {};
      }
      assert fresh(news) && o !in news;
      NotAmong(old(cache), touched, written, news, o);
      var h := Close(o, name, Some(Tree(newSubTree.value)));
      assert Edited(view, below, rest, entry, touched, written);
      r := Some(h);
    }

    /** The object to edit: the one of the directory, or a new one. */
    method Open(root: Option<TreeHash>, ghost view: TreeTable) returns (o: Option<DirObject>)
      requires Shows(view)
      modifies this`cache
      ensures o.Some? <==> root.None? || root.value in view
      ensures Shows(view)
      ensures o.Some? ==> o.value.entries == EntriesIn(view, root)
      ensures o.Some? && root.Some? ==>
                if root.value in old(cache) then o.value == old(cache[root.value]) else fresh(o.value)
      ensures o.Some? ==> cache == PutTop(old(cache), root, o.value)
      ensures o.None? ==> cache == old(cache)
      ensures root.None? ==> fresh(o.value)
    {
      if root.Some? {
        o := GetTree(root.value);
      } else {
        var empty := new DirObject(map[]);
        o := Some(empty);
      }
      assert Shows(view);
    }

    /** Sets or deletes one entry in the object itself and writes the directory. */
    method Close(o: DirObject, name: Name, entry: Option<Entry>) returns (h: TreeHash)
      modifies this, o
      ensures o.entries == if entry.Some? then old(o.entries)[name := entry.value] else old(o.entries) - {name}
      ensures h == Digest(o.entries)
      ensures trees == old(trees)[h := o.entries] && cache == old(cache)[h := o]
    {
      if entry.Some? {
        o.entries := o.entries[name := entry.value];
      } else {
        o.entries := o.entries - {name};
      }
      h := WriteTree(o);
    }

    // -------------------------------------------------------------- one edit

    /**
     * One edit, whatever readers see before it.  The result is built from what is read; afterwards the
     * new directories read as themselves, every other directory on the way reads as what was built from it,
     * and the rest as before or, where it shares an object with the way, as a new directory.
     */
    method EditAsRead(root: Option<TreeHash>, path: Path, entry: Option<Entry>, ghost view: TreeTable) returns (r: Option<TreeHash>)
      requires path != [] && Shows(view) && Separate(cache, ReadWay(view, root, path))
      modifies this, ObjectsAt(cache, ReadSpine(view, root, path))
      ensures r.Some? <==> ReadSpine(view, root, path) <= view.Keys
      ensures r.None? ==> Shows(view)
      ensures r.Some? ==> r.value == Built(view, root, path, entry)
      ensures r.Some? ==> trees == old(trees) + RowsFor(BuiltSpine(view, root, path, entry))
      ensures r.Some? ==> forall h | h in BuiltSpine(view, root, path, entry) :: Reads(h) == Some(h.entries)
      ensures r.Some? ==> forall h, h' | BuiltFrom(view, root, path, entry, h, h') && h !in BuiltSpine(view, root, path, entry) ::
                            Reads(h) == Some(h'.entries) && h' in BuiltSpine(view, root, path, entry)
      ensures r.Some? ==> forall h | h !in ReadSpine(view, root, path) && h !in BuiltSpine(view, root, path, entry) ::
                            && SameOr(old(Reads(h)), Reads(h), BuiltSpine(view, root, path, entry))
                            && ((h in old(cache) && old(cache[h]) in old(ObjectsAt(cache, ReadSpine(view, root, path))))
                                || Reads(h) == old(Reads(h)))
      ensures r.Some? ==> forall h | h in cache :: cache[h] in old(cache.Values) || fresh(cache[h])
    {
      ghost var touched, written, news;
      r, touched, written, news := WriteHierarchy(root, path, entry, view);
      if r.Some? {
        AfterEdit(view, root, path, entry, touched, written, old(cache), old(trees), news);
        CachedObjects(old(cache), touched, written, news);
      }
    }

    /**
     * The same where the directories on the way read right: the result is the edited tree, every displaced
     * directory reads as what it became, which is not itself, and whatever else read right still does.
     */
    method EditPath(root: Option<TreeHash>, path: Path, entry: Option<Entry>) returns (r: Option<TreeHash>)
      requires path != [] && forall h | h in OldSpine(root, path) :: Honest(h)
      modifies this, ObjectsAt(cache, OldSpine(root, path))
      ensures r.Some? <==> old(SpineReadable(OldSpine(root, path)))
      ensures r.None? ==> forall h :: Reads(h) == old(Reads(h))
      ensures r.Some? ==> r.value == Edit(root, path, entry) && trees == old(trees) + RowsFor(NewSpine(root, path, entry))
      ensures r.Some? ==> forall h | h in NewSpine(root, path, entry) :: Reads(h) == Some(h.entries)
      ensures r.Some? ==> forall h, h' | Becomes(root, path, entry, h, h') && h in Displaced(root, path, entry) ::
                            Reads(h) == Some(h'.entries) && h' != h
      ensures r.Some? ==> forall h | h !in OldSpine(root, path) && h !in NewSpine(root, path, entry) ::
                            SameOr(old(Reads(h)), Reads(h), NewSpine(root, path, entry)) && (old(Honest(h)) ==> Reads(h) == old(Reads(h)))
      ensures r.Some? ==> forall h | h in cache :: cache[h] in old(cache.Values) || fresh(cache[h])
    {
      ghost var view := View();
      NotShared(OldSpine(root, path));
      RightSpine(view, root, path, entry);
      RightIsSeparate(cache, view, root, path);
      ghost var shared := ObjectsAt(cache, OldSpine(root, path));
      r := EditAsRead(root, path, entry, view);
      if r.Some? {
        assert shared == old(ObjectsAt(cache, ReadSpine(view, root, path)));
        forall h | h !in OldSpine(root, path) && h !in NewSpine(root, path, entry) && old(Honest(h))
          ensures Reads(h) == old(Reads(h))
        {
          assert h in old(cache) ==> old(cache[h]) !in shared;
        }
        RightBuilt(view, root, path, entry);
      }
    }

    /** Every directory of the tree reads as itself. */
    ghost predicate Faithful(root: Option<TreeHash>)
      reads this, cache.Values
    {
      forall h | InTree(root, h) :: Reads(h) == Some(h.entries)
    }

    lemma FaithfulIsRight(h: TreeHash)
      ensures Faithful(Some(h)) <==> RightTree(View(), h)
    {
      if RightTree(View(), h) {
        forall d | InTree(Some(h), d) ensures Reads(d) == Some(d.entries) {
          assert d in View();
        }
      }
      if Faithful(Some(h)) {
        forall d | Inside(h, d) ensures d in View() && View()[d] == d.entries {
          assert InTree(Some(h), d);
        }
      }
    }

    /** What a reader who walks the tree finds at a path. */
    function Seen(h: TreeHash, p: Path): Option<FileId>
      reads this, cache.Values
    {
      SeenIn(View(), h, p)
    }

    lemma SeenIsAt(h: TreeHash, p: Path)
      requires Faithful(Some(h))
      ensures Seen(h, p) == At(h, p)
    {
      FaithfulIsRight(h);
      RightTreeTo(View(), h, |p|);
      SeenInIsAt(View(), h, p, |p|);
    }

    /** If every cached directory reads as itself, then after an edit exactly the displaced ones do not. */
    method EditCoherent(root: Option<TreeHash>, path: Path, entry: Option<Entry>) returns (r: Option<TreeHash>)
      requires path != [] && forall h :: Honest(h)
      modifies this, ObjectsAt(cache, OldSpine(root, path))
      ensures r.Some? <==> old(SpineReadable(OldSpine(root, path)))
      ensures r.Some? ==> r.value == Edit(root, path, entry)
      ensures r.Some? ==> forall h :: Honest(h) <==> h !in Displaced(root, path, entry)
      ensures r.None? ==> forall h :: Honest(h)
    {
      r := EditPath(root, path, entry);
      if r.Some? {
        forall h ensures Honest(h) <==> h !in Displaced(root, path, entry) {
          if h in Displaced(root, path, entry) {
            var h' := SpineBecomes(root, path, entry, h);
            assert h'.entries != h.entries;
          } else {
            assert old(Honest(h));
          }
        }
      } else {
        forall h ensures Honest(h) {
          assert old(Honest(h));
        }
      }
    }

    /**
     * On a tree that reads right, the edited tree is right, and it reads right exactly when no displaced
     * directory occurs in it elsewhere.
     */
    method EditFaithful(root: Option<TreeHash>, path: Path, entry: Option<Entry>) returns (h: TreeHash)
      requires path != [] && !IsTree(entry) && Faithful(root)
      modifies this, ObjectsAt(cache, OldSpine(root, path))
      ensures h == Edit(root, path, entry) && trees == old(trees) + RowsFor(NewSpine(root, path, entry))
      ensures Faithful(Some(h)) <==> Clean(root, path, entry)
      ensures forall d | d in NewSpine(root, path, entry) :: Reads(d) == Some(d.entries)
      ensures forall d, d' | Becomes(root, path, entry, d, d') && d in Displaced(root, path, entry) ::
                Reads(d) == Some(d'.entries) && d' != d
      ensures forall d | d !in OldSpine(root, path) && d !in NewSpine(root, path, entry) && old(Honest(d)) ::
                Reads(d) == old(Reads(d))
      ensures forall h | h in cache :: cache[h] in old(cache.Values) || fresh(cache[h])
    {
      forall d | d in OldSpine(root, path) ensures InTree(root, d) { SpineInside(root, path, d); }
      var r := EditPath(root, path, entry);
      h := r.value;
      forall d | d in Displaced(root, path, entry) ensures Reads(d) != Some(d.entries) {
        var d' := SpineBecomes(root, path, entry, d);
      }
      forall d | InTree(Some(h), d) && d !in Displaced(root, path, entry) ensures Reads(d) == Some(d.entries) {
        InsideEdited(root, path, entry, d);
      }
    }

    /**
     * A run of edits, each starting from the tree the one before it returned.  While every step is clean,
     * each tree is the right one and reads right; `EditFaithful` says what the first other step does.
     */
    method EditAll(root: Option<TreeHash>, edits: seq<PathEdit>) returns (head: Option<TreeHash>)
      requires Faithful(root) && CleanRun(root, edits)
      modifies this, cache.Values
      ensures head == EditedBy(root, edits) && Faithful(head)
      ensures forall h | h in cache :: cache[h] in old(cache.Values) || fresh(cache[h])
    {
      head := root;
      for i := 0 to |edits|
        invariant Faithful(head) && CleanRun(head, edits[i..])
        invariant EditedBy(head, edits[i..]) == EditedBy(root, edits)
        invariant forall h | h in cache :: cache[h] in old(cache.Values) || fresh(cache[h])
      {
        var e := edits[i];
        assert edits[i..][0] == e && edits[i..][1..] == edits[i + 1..];
        var h := EditFaithful(head, e.path, e.entry);
        head := Some(h);
      }
    }

    // -------------------------------------------------------------- runs of edits

    /** What readers know: the hashes that can be read, and those among them that read wrongly. */
    ghost predicate Is(st: Status)
      reads this, cache.Values
    {
      st.wrong <= st.known && forall h :: ReadAs(st, h, Reads(h))
    }

    /** After a restart everything is read from the rows, and so it reads right. */
    lemma RestartReadsRight()
      requires cache == map[] && ContentAddressed(trees)
      ensures Is(Status(trees.Keys, {}))
    {
    }

    /** An edit of any tree whose directories on the way read right, whatever else reads wrongly. */
    method EditSafely(root: Option<TreeHash>, path: Path, entry: Option<Entry>, ghost st: Status) returns (h: TreeHash)
      requires path != [] && Is(st) && Safe(st, root, path)
      modifies this, ObjectsAt(cache, OldSpine(root, path))
      ensures h == Edit(root, path, entry) && Is(After(st, root, path, entry))
      ensures forall h | h in cache :: cache[h] in old(cache.Values) || fresh(cache[h])
    {
      forall d | d in OldSpine(root, path) ensures Reads(d) == Some(d.entries) {
        assert ReadAs(st, d, Reads(d));
      }
      var r := EditPath(root, path, entry);
      h := r.value;
      forall d ensures ReadAs(After(st, root, path, entry), d, Reads(d)) {
        if d in Displaced(root, path, entry) {
          var d' := SpineBecomes(root, path, entry, d);
          assert d'.entries != d.entries;
        } else if d !in NewSpine(root, path, entry) {
          assert ReadAs(st, d, old(Reads(d)));
          OtherReads(old(Reads(d)), Reads(d), d, st, NewSpine(root, path, entry));
        }
      }
    }

    /**
     * A run of edits of any trees, in any order: several branches, trees of earlier commits, and results
     * that no commit ever names.  While no edit finds on its way a directory that reads wrongly, all results
     * are right, and the directories that read wrongly are known.
     */
    method EditRun(edits: seq<RootEdit>, ghost st: Status) returns (results: seq<TreeHash>)
      requires Is(st) && SafeRun(st, edits)
      modifies this, cache.Values
      ensures |results| == |edits| && forall i | 0 <= i < |edits| :: results[i] == ResultOf(edits[i])
      ensures Is(AfterRun(st, edits))
      ensures forall h | h in cache :: cache[h] in old(cache.Values) || fresh(cache[h])
    {
      results := [];
      ghost var now := st;
      for i := 0 to |edits|
        invariant |results| == i && Is(now) && SafeRun(now, edits[i..]) && AfterRun(now, edits[i..]) == AfterRun(st, edits)
        invariant forall j | 0 <= j < i :: results[j] == ResultOf(edits[j])
        invariant forall h | h in cache :: cache[h] in old(cache.Values) || fresh(cache[h])
      {
        var e := edits[i];
        assert edits[i..][0] == e && edits[i..][1..] == edits[i + 1..];
        var h := EditSafely(e.root, e.path, e.entry, now);
        now := After(now, e.root, e.path, e.entry);
        results := results + [h];
      }
    }
  }

  /** One write is enough: the snapshot of the first commit now shows a file added by the second. */
  method SnapshotChanges() returns (first: TreeHash, before: Option<Dir>, after: Option<Dir>)
    ensures first == Digest(map["a" := Blob("1")])
    ensures before == Some(map["a" := Blob("1")])
    ensures after == Some(map["a" := Blob("1"), "b" := Blob("2")])
  {
    var store := new CachedTreeStore();
    first := store.EditFaithful(None, ["a"], Some(Blob("1")));
    before := store.Reads(first);
    var second := store.EditFaithful(Some(first), ["b"], Some(Blob("2")));
    assert "b" in second.entries && "b" !in first.entries;
    assert Becomes(Some(first), ["b"], Some(Blob("2")), first, second);
    after := store.Reads(first);
  }

  // ---------------------------------------------------------------- two writes on one root

  lemma {:induction false} ContainedIsSmaller(h: TreeHash, t: TreeHash, levels: nat)
    requires Contains(h, t, levels)
    ensures t == h || t < h
    decreases levels
  {
    if h != t {
      var n :| n in h.entries && h.entries[n].Tree? && Contains(h.entries[n].tree, t, levels - 1);
      ContainedIsSmaller(h.entries[n].tree, t, levels - 1);
      assert h.entries[n] < h && h.entries[n].tree < h;
    }
  }

  /** A file written directly in the root always makes a clean edit. */
  lemma FileInRootIsClean(root: TreeHash, n: Name, file: FileId)
    ensures Clean(Some(root), [n], Some(Blob(file)))
  {
    var head := Edit(Some(root), [n], Some(Blob(file)));
    if root != head && Inside(head, root) {
      var m := InsideStep(head, root);
      assert m != n && root.entries[m] == head.entries[m];
      assert root.entries[m] < root && root.entries[m].tree < root;
      var levels: nat :| Contains(root.entries[m].tree, root, levels);
      ContainedIsSmaller(root.entries[m].tree, root, levels);
    }
  }

  /**
   * Two writes that start from the same root, in two branches or after a call that did not commit: the
   * second reads the object that the first has edited, and its result holds the first file as well.
   */
  method TwoWritesOnOneRoot(store: CachedTreeStore, root: TreeHash, a: Name, fileA: FileId, b: Name, fileB: FileId)
    returns (first: TreeHash, second: TreeHash)
    requires store.Reads(root) == Some(root.entries) && a != b && Get(root.entries, a) != Some(Blob(fileA))
    modifies store, store.cache.Values
    ensures first == Edit(Some(root), [a], Some(Blob(fileA)))
    ensures second == Edit(Some(first), [b], Some(Blob(fileB))) && second != Edit(Some(root), [b], Some(Blob(fileB)))
    ensures Clean(Some(root), [a], Some(Blob(fileA))) && Clean(Some(root), [b], Some(Blob(fileB)))
  {
    FileInRootIsClean(root, a, fileA);
    FileInRootIsClean(root, b, fileB);
    var r := store.EditPath(Some(root), [a], Some(Blob(fileA)));
    first := r.value;
    assert Get(first.entries, a) == Some(Blob(fileA));
    assert Becomes(Some(root), [a], Some(Blob(fileA)), root, first);
    assert store.Reads(root) == Some(first.entries);
    ghost var view := store.View();
    assert DirIn(view, root) == first.entries;
    var r' := store.EditAsRead(Some(root), [b], Some(Blob(fileB)), view);
    second := r'.value;
    assert Get(second.entries, a) == Some(Blob(fileA));
  }

  // ---------------------------------------------------------------- twin directories

  /** Two names of one directory hold the same directory. */
  predicate Twins(root: TreeHash, a: Name, b: Name, k: TreeHash) {
    a != b && Get(root.entries, a) == Get(root.entries, b) == Some(Tree(k))
  }

  lemma TwinIsDisplaced(root: TreeHash, a: Name, b: Name, k: TreeHash, y: Name, e: Option<Entry>)
    requires Twins(root, a, b, k) && Get(k.entries, y) != e
    ensures k in Displaced(Some(root), [a, y], e) && !Clean(Some(root), [a, y], e)
    ensures Becomes(Some(root), [a, y], e, k, Edit(Some(k), [y], e))
    ensures Edit(Some(root), [a, y], e) in NewSpine(Some(root), [a, y], e)
    ensures Edit(Some(root), [a, y], e).entries == root.entries[a := Tree(Edit(Some(k), [y], e))]
  {
    var head, k' := Edit(Some(root), [a, y], e), Edit(Some(k), [y], e);
    assert [a, y][1..] == [y];
    assert Below(Some(root), a) == Some(k);
    assert Get(k'.entries, y) == e;
    assert head.entries[b] < head && head.entries[b].tree == k;
    assert NewSpine(Some(root), [a, y], e) == {head} + NewSpine(Some(k), [y], e) == {head} + {k'};
    assert OldSpine(Some(root), [a, y]) == {root} + OldSpine(Some(k), [y]) == {root} + {k};
    InsideItself(k);
    InsideChild(head, b, k);
  }

  /** Writing a file in one of two twins shows it in the other, too, although it is not there. */
  method WriteInTwin(store: CachedTreeStore, root: TreeHash, a: Name, b: Name, k: TreeHash, y: Name, file: FileId)
    returns (head: TreeHash)
    requires store.Faithful(Some(root)) && Twins(root, a, b, k) && Get(k.entries, y) != Some(Blob(file))
    modifies store, store.cache.Values
    ensures head == Edit(Some(root), [a, y], Some(Blob(file))) && At(head, [b, y]) == At(root, [b, y])
    ensures store.Seen(head, [b, y]) == Some(file)
    ensures store.Reads(head) == Some(head.entries) && store.Reads(k) == Some(k.entries[y := Blob(file)])
    ensures forall h | h in store.cache :: store.cache[h] in old(store.cache.Values) || fresh(store.cache[h])
  {
    TwinIsDisplaced(root, a, b, k, y, Some(Blob(file)));
    head := store.EditFaithful(Some(root), [a, y], Some(Blob(file)));
    assert [b, y][1..] == [y];
    assert head.entries[b] == Tree(k) && root.entries[b] == Tree(k);
    assert DirIn(store.View(), head) == head.entries && DirIn(store.View(), k) == k.entries[y := Blob(file)];
    assert SeenIn(store.View(), k, [y]) == Some(file);
  }

  /** The two steps of `writeHierarchy` on the path `b/z`, when the directory below `b` reads as `seen`. */
  method WriteThrough(store: CachedTreeStore, head: TreeHash, b: Name, k: TreeHash, seen: Dir, z: Name, file: FileId)
    returns (next: TreeHash)
    requires store.Reads(head) == Some(head.entries) && store.Reads(k) == Some(seen) && seen != head.entries
    modifies store, store.cache.Values
    ensures next == Digest(head.entries[b := Tree(Digest(seen[z := Blob(file)]))])
  {
    var o := store.GetTree(head);
    var below := store.GetTree(k);
    assert o.value != below.value;
    var sub := store.Close(below.value, z, Some(Blob(file)));
    next := store.Close(o.value, b, Some(Tree(sub)));
  }

  /**
   * The next write then commits the mistake: it reads the twin, edits what it reads and stores it, and so
   * the committed tree holds `b/y`, which the edited tree holds only if the tree before both writes did.
   */
  method NextWriteCommitsIt(store: CachedTreeStore, root: TreeHash, a: Name, b: Name, k: TreeHash, y: Name, file: FileId,
                            z: Name, other: FileId)
    returns (head: TreeHash, next: TreeHash)
    requires store.Faithful(Some(root)) && Twins(root, a, b, k) && Get(k.entries, y) != Some(Blob(file)) && y != z
    modifies store, store.cache.Values
    ensures head == Edit(Some(root), [a, y], Some(Blob(file)))
    ensures At(Edit(Some(head), [b, z], Some(Blob(other))), [b, y]) == At(root, [b, y])
    ensures At(next, [b, y]) == Some(file)
  {
    head := WriteInTwin(store, root, a, b, k, y, file);
    EditAt(head, [b, z], Some(Blob(other)), [b, y]);
    var k' := k.entries[y := Blob(file)];
    assert k' != head.entries by {
      assert head.entries == root.entries[a := Tree(Edit(Some(k), [y], Some(Blob(file))))] by {
        TwinIsDisplaced(root, a, b, k, y, Some(Blob(file)));
      }
      assert Edit(Some(k), [y], Some(Blob(file))) == Digest(k');
      assert head.entries[a] < head;
    }
    next := WriteThrough(store, head, b, k, k', z, other);
    assert [b, y][1..] == [y];
  }

  lemma TwoEqualDirectories()
    ensures var k := Digest(map["x" := Blob("1")]);
            && Edit(None, ["a", "x"], Some(Blob("1"))) == Digest(map["a" := Tree(k)])
            && Edit(Some(Digest(map["a" := Tree(k)])), ["b", "x"], Some(Blob("1"))) == Digest(map["a" := Tree(k), "b" := Tree(k)])
            && Clean(None, ["a", "x"], Some(Blob("1")))
            && Clean(Some(Digest(map["a" := Tree(k)])), ["b", "x"], Some(Blob("1")))
  {
    var k := Digest(map["x" := Blob("1")]);
    var first, second := Digest(map["a" := Tree(k)]), Digest(map["a" := Tree(k), "b" := Tree(k)]);
    assert ["a", "x"][1..] == ["x"] && ["b", "x"][1..] == ["x"];
    assert Edit(None, ["x"], Some(Blob("1"))) == k;
    assert map["a" := Tree(k)]["b" := Tree(k)] == map["a" := Tree(k), "b" := Tree(k)];
    assert OldSpine(None, ["a", "x"]) == {} by { EmptySpine(["a", "x"]); }
    assert OldSpine(Some(first), ["b", "x"]) == {first} by { EmptySpine(["x"]); }
    assert first != k by { assert "x" in k.entries && "x" !in first.entries; }
    assert first != second by { assert "b" in second.entries && "b" !in first.entries; }
    assert forall n :: !IsTree(Get(k.entries, n));
    if Inside(second, first) {
      var n := InsideStep(second, first);
      assert second.entries[n].tree == k;
      var m := InsideStep(k, first);
    }
  }

  /** From an empty repository: `a/x` and `b/x` with the same content, then `a/y`; `b/y` appears as well. */
  method SharedDirectory() returns (store: CachedTreeStore, second: TreeHash, head: TreeHash)
    ensures fresh(store)
    ensures second == Edit(Some(Edit(None, ["a", "x"], Some(Blob("1")))), ["b", "x"], Some(Blob("1")))
    ensures head == Edit(Some(second), ["a", "y"], Some(Blob("2")))
    ensures At(head, ["b", "y"]) == None && store.Seen(head, ["b", "y"]) == Some("2")
  {
    TwoEqualDirectories();
    store := new CachedTreeStore();
    var first := store.EditFaithful(None, ["a", "x"], Some(Blob("1")));
    second := store.EditFaithful(Some(first), ["b", "x"], Some(Blob("1")));
    head := WriteInTwin(store, second, "a", "b", Digest(map["x" := Blob("1")]), "y", "2");
    assert ["b", "y"][1..] == ["y"];
  }
}
