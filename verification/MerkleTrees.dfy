/**
 * Directory trees stored by hash.  SHA-256 is modelled as the free constructor `Digest`: two
 * directories have the same hash exactly when they have the same entries.
 */
module MerkleTrees {
  import opened Wrappers
  import opened Paths

  /** The content hash of a file; hex digests are never empty. */
  type FileId = s: string | s != "" witness "0"

  datatype Entry = Blob(file: FileId) | Tree(tree: TreeHash) | SubRepo(repo: string)
  datatype TreeHash = Digest(entries: map<Name, Entry>)
  type Dir = map<Name, Entry>

  /** Both tree walks of the source stop past depth 100, so they see this many levels. */
  const LEVELS: nat := 101

  /** `entries[name]` */
  function Get(d: Dir, n: Name): Option<Entry> {
    if n in d then Some(d[n]) else None
  }

  predicate IsTree(e: Option<Entry>) {
    e.Some? && e.value.Tree?
  }

  /** What a flattened tree records for a file or a sub-repository. */
  function Ref(e: Entry): FileId
    requires !e.Tree?
  {
    if e.Blob? then e.file else "REPO:" + e.repo
  }

  // ---------------------------------------------------------------- what a tree hash denotes

  /** The file at path `p` under the tree `h`, if there is one. */
  function At(h: TreeHash, p: Path): Option<FileId>
    decreases |p|
  {
    if p == [] || p[0] !in h.entries then None
    else
      var e := h.entries[p[0]];
      if e.Tree? then At(e.tree, p[1..])
      else if |p| == 1 then Some(Ref(e))
      else None
  }

  /** The file at path `p` below an entry; the empty path is the entry itself. */
  function EntryAt(e: Option<Entry>, p: Path): Option<FileId> {
    if IsTree(e) then At(e.value.tree, p)
    else if e.Some? && |p| == 0 then Some(Ref(e.value))
    else None
  }

  function RootAt(root: Option<TreeHash>, p: Path): Option<FileId> {
    if root.Some? then At(root.value, p) else None
  }

  /** All file paths of a tree. */
  function FilePaths(h: TreeHash): set<Path>
    decreases h
  {
    set n, q | n in h.entries.Keys && q in (if h.entries[n].Tree? then FilePaths(h.entries[n].tree) else {[]}) :: [n] + q
  }

  lemma {:induction false} FilePathsAreFiles(h: TreeHash, p: Path)
    ensures p in FilePaths(h) <==> At(h, p).Some?
    decreases h
  {
    if p != [] {
      assert p == [p[0]] + p[1..];
      if p[0] in h.entries && h.entries[p[0]].Tree? {
        FilePathsAreFiles(h.entries[p[0]].tree, p[1..]);
      }
      forall n, q | [n] + q == p
        ensures n == p[0] && q == p[1..]
      {
        assert q == ([n] + q)[1..];
      }
    }
  }

  /** `m` lists exactly the files of `h` whose paths have at most `levels` components. */
  ghost predicate Flattens(m: map<Path, FileId>, h: TreeHash, levels: nat) {
    forall p ::
      && (p in m <==> At(h, p).Some? && |p| <= levels)
      && (p in m ==> m[p] == At(h, p).value)
  }

  lemma HasFlat(h: TreeHash, levels: nat)
    ensures exists m :: Flattens(m, h, levels)
  {
    forall p ensures p in FilePaths(h) <==> At(h, p).Some? {
      FilePathsAreFiles(h, p);
    }
    var m := map p | p in FilePaths(h) && |p| <= levels :: At(h, p).value;
    assert Flattens(m, h, levels);
  }

  /** The flat path-to-file map of a tree, down to `levels` components. */
  ghost function Flat(h: TreeHash, levels: nat): (m: map<Path, FileId>)
    ensures Flattens(m, h, levels)
  {
    HasFlat(h, levels);
    var m :| Flattens(m, h, levels);
    m
  }

  // ---------------------------------------------------------------- editing one path

  /** The tree that `writeHierarchy` builds; `None` for the entry deletes the path. */
  function Edit(root: Option<TreeHash>, p: Path, e: Option<Entry>): TreeHash
    requires p != []
    decreases |p|
  {
    var entries := if root.Some? then root.value.entries else map[];
    if |p| > 1 then
      var below := if IsTree(Get(entries, p[0])) then Some(entries[p[0]].tree) else None;
      Digest(entries[p[0] := Tree(Edit(below, p[1..], e))])
    else if e.Some? then
      Digest(entries[p[0] := e.value])
    else
      Digest(entries - {p[0]})
  }

  /**
   * The edit law, path by path: below `p` the new tree is the new entry, strictly above `p` there
   * is no file any more, and every path not comparable with `p` is untouched.
   */
  lemma {:induction false} EditLaw(root: Option<TreeHash>, p: Path, e: Option<Entry>, q: Path)
    requires p != []
    ensures At(Edit(root, p, e), q) ==
            if p <= q then EntryAt(e, q[|p|..]) else if q <= p then None else RootAt(root, q)
    decreases |p|
  {
    if q != [] && q[0] == p[0] {
      var entries := if root.Some? then root.value.entries else map[];
      if |p| > 1 {
        var below := if IsTree(Get(entries, p[0])) then Some(entries[p[0]].tree) else None;
        EditLaw(below, p[1..], e, q[1..]);
        assert At(Edit(root, p, e), q) == At(Edit(below, p[1..], e), q[1..]);
        assert p <= q <==> p[1..] <= q[1..] by { ConsPrefix(p, q); }
        assert q <= p <==> q[1..] <= p[1..] by { ConsPrefix(q, p); }
        assert |p| <= |q| ==> q[|p|..] == q[1..][|p[1..]|..];
        assert |q| == 1 ==> q <= p;
        assert !(q <= p) ==> RootAt(root, q) == RootAt(below, q[1..]);
      } else {
        assert q[|p|..] == q[1..];
      }
    }
  }

  lemma ConsPrefix(p: Path, q: Path)
    requires p != [] && q != [] && p[0] == q[0]
    ensures p <= q <==> p[1..] <= q[1..]
  {
    assert p == [p[0]] + p[1..];
    assert q == [q[0]] + q[1..];
    if p[1..] <= q[1..] {
      forall i | 0 <= i < |p| ensures p[i] == q[i] {
        if i > 0 { assert p[1..][i - 1] == q[1..][i - 1]; }
      }
    }
    if p <= q {
      forall i | 0 <= i < |p| - 1 ensures p[1..][i] == q[1..][i] {
        assert p[i + 1] == q[i + 1];
      }
    }
  }

  /** Drop every path comparable with `p`. */
  function Without(m: map<Path, FileId>, p: Path): map<Path, FileId> {
    map q | q in m && !Comparable(p, q) :: m[q]
  }

  /**
   * The edit law on whole flat maps, for a written file, a registered sub-repository and a delete.  An
   * entry below the listed levels is not listed itself, but it still clears every comparable path.
   */
  lemma EditFlat(root: TreeHash, p: Path, e: Option<Entry>, levels: nat)
    requires p != [] && !IsTree(e)
    ensures Flat(Edit(Some(root), p, e), levels) ==
            var rest := Without(Flat(root, levels), p);
            if e.Some? && |p| <= levels then rest[p := Ref(e.value)] else rest
  {
    var rest := Without(Flat(root, levels), p);
    var want := if e.Some? && |p| <= levels then rest[p := Ref(e.value)] else rest;
    var got := Flat(Edit(Some(root), p, e), levels);

    forall q
      ensures (q in got <==> q in want) && (q in got ==> got[q] == want[q])
    {
      EditAt(root, p, e, q);
    }
  }

  lemma EditAt(root: TreeHash, p: Path, e: Option<Entry>, q: Path)
    requires p != [] && !IsTree(e)
    ensures At(Edit(Some(root), p, e), q) ==
            if p == q then (if e.Some? then Some(Ref(e.value)) else None)
            else if Comparable(p, q) then None else At(root, q)
  {
    EditLaw(Some(root), p, e, q);
    if p <= q && q[|p|..] == [] {
      assert q == p;
    }
  }

  /** A move is a delete followed by a write. */
  function Move(root: TreeHash, from: Path, to: Path, file: FileId): TreeHash
    requires from != [] && to != []
  {
    Edit(Some(Edit(Some(root), from, None)), to, Some(Blob(file)))
  }

  lemma MoveFlat(root: TreeHash, from: Path, to: Path, levels: nat)
    requires from != [] && to != [] && from in Flat(root, levels)
    ensures var m := Flat(root, levels);
            var rest := Without(Without(m, from), to);
            Flat(Move(root, from, to, m[from]), levels) == if |to| <= levels then rest[to := m[from]] else rest
    ensures from != to ==> from !in Flat(Move(root, from, to, Flat(root, levels)[from]), levels)
  {
    EditFlat(root, from, None, levels);
    EditFlat(Edit(Some(root), from, None), to, Some(Blob(Flat(root, levels)[from])), levels);
  }

  // ---------------------------------------------------------------- looking up one path

  /** A lookup that ends at a directory also answers, with `REPO:` and the directory's hash. */
  datatype Target = File(id: FileId) | Directory(tree: TreeHash)

  /** What `resolvePathToHash` computes. */
  function Resolve(h: TreeHash, p: Path): Option<Target>
    requires p != []
    decreases |p|
  {
    var e := Get(h.entries, p[0]);
    if e.None? then None
    else if |p| > 1 then
      if e.value.Tree? then Resolve(e.value.tree, p[1..]) else None
    else if e.value.Tree? then Some(Directory(e.value.tree))
    else Some(File(Ref(e.value)))
  }

  /** The file a lookup answers with, if it does not end at a directory. */
  function FileOf(r: Option<Target>): Option<FileId> {
    if r.Some? && r.value.File? then Some(r.value.id) else None
  }

  lemma {:induction false} ResolveIsAt(h: TreeHash, p: Path)
    requires p != []
    ensures FileOf(Resolve(h, p)) == At(h, p)
    decreases |p|
  {
    var e := Get(h.entries, p[0]);
    if |p| > 1 && IsTree(e) {
      ResolveIsAt(e.value.tree, p[1..]);
    }
  }

  /**
   * Lookup agrees with flattening on every path the flattener can see: a flattened file is what the
   * lookup returns, and a lookup that does not end at a directory returns a flattened file.
   */
  lemma ResolveAgreesWithFlat(h: TreeHash, p: Path)
    requires 0 < |p| <= LEVELS
    ensures p in Flat(h, LEVELS) ==> Resolve(h, p) == Some(File(Flat(h, LEVELS)[p]))
    ensures Resolve(h, p).Some? && Resolve(h, p).value.File? ==> p in Flat(h, LEVELS)
  {
    ResolveIsAt(h, p);
    assert p in Flat(h, LEVELS) <==> At(h, p).Some? && |p| <= LEVELS;
  }

  // ---------------------------------------------------------------- depth and containment

  /** No directory of the tree lies deeper than `levels` levels. */
  predicate WithinLevels(h: TreeHash, levels: nat)
    decreases h
  {
    levels > 0 &&
    forall n | n in h.entries && h.entries[n].Tree? :: WithinLevels(h.entries[n].tree, levels - 1)
  }

  /** The directory `t` is `h` or lies inside it, at most `levels` levels down. */
  ghost predicate Contains(h: TreeHash, t: TreeHash, levels: nat)
    decreases h
  {
    levels > 0 &&
    (h == t || exists n | n in h.entries && h.entries[n].Tree? :: Contains(h.entries[n].tree, t, levels - 1))
  }

  ghost predicate Inside(h: TreeHash, t: TreeHash) {
    exists levels: nat :: Contains(h, t, levels)
  }

  lemma InsideChild(root: TreeHash, n: Name, h: TreeHash)
    requires IsTree(Get(root.entries, n)) && Inside(root.entries[n].tree, h)
    ensures Inside(root, h)
  {
    var levels: nat :| Contains(root.entries[n].tree, h, levels);
    assert Contains(root, h, levels + 1);
  }

  lemma InsideItself(root: TreeHash)
    ensures Inside(root, root)
  {
    assert Contains(root, root, 1);
  }

  /** A directory inside a tree is the tree or inside one of its directories. */
  lemma InsideStep(root: TreeHash, h: TreeHash) returns (n: Name)
    requires Inside(root, h) && h != root
    ensures IsTree(Get(root.entries, n)) && Inside(root.entries[n].tree, h)
  {
    var levels: nat :| Contains(root, h, levels);
    n :| n in root.entries && root.entries[n].Tree? && Contains(root.entries[n].tree, h, levels - 1);
  }
}
