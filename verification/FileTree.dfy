/**
 * The file operations on a branch.  `Apply` says what each does to the root of the branch's tree; the
 * methods are the bodies that run under the branch lock.
 */
module FileTree {
  import opened Wrappers
  import opened Paths
  import opened MerkleTrees
  import opened TreeMerge
  import opened TreeViews
  import opened TreeStorage
  import opened CommitGraph
  import opened Repository

  datatype FileOp =
    | Write(path: Path, file: FileId)
    | Delete(path: Path)
    | Rename(from: Path, to: Path)
    | Copy(from: Path, to: Path)
    | AddSubRepo(path: Path, repo: string)

  /** No operation accepts an empty path. */
  predicate WellFormed(op: FileOp) {
    match op
    case Write(path, _) => path != []
    case Delete(path) => path != []
    case Rename(from, to) => from != [] && to != []
    case Copy(from, to) => from != [] && to != []
    case AddSubRepo(path, _) => path != []
  }

  /** The file at a path as the flattened tree shows it. */
  function Visible(root: Option<TreeHash>, p: Path): Option<FileId> {
    if |p| <= LEVELS then RootAt(root, p) else None
  }

  /** The new root, or `None` when the operation throws because the file is not there. */
  function Apply(op: FileOp, root: Option<TreeHash>): Option<TreeHash>
    requires WellFormed(op)
  {
    match op
    case Write(path, file) => Some(Edit(root, path, Some(Blob(file))))
    case Delete(path) => if root.None? then None else Some(Edit(root, path, None))
    case Rename(from, to) =>
      var file := Visible(root, from);
      if file.None? then None else Some(Move(root.value, from, to, file.value))
    case Copy(from, to) =>
      var file := Visible(root, from);
      if file.None? then None else Some(Edit(root, to, Some(Blob(file.value))))
    case AddSubRepo(path, repo) => Some(Edit(root, path, Some(SubRepo(repo))))
  }

  /** The root of the tree at a head: none on an empty branch. */
  function RootOf(nodes: NodeTable, head: Option<Id>): Option<TreeHash> {
    if head.Some? && head.value in nodes then nodes[head.value].root else None
  }

  class FileTree {
    const repo: Repository

    constructor (repo: Repository)
      ensures this.repo == repo
    {
      this.repo := repo;
    }

    /** `checkout` of the branch and the root hash in its metadata. */
    method CurrentRoot(branch: RefName) returns (root: Option<TreeHash>)
      requires repo.Valid()
      ensures root == RootOf(repo.nodes, CommitGraph.ResolveRef(repo.Tables(), branch))
      ensures root.Some? ==> root.value in repo.store.trees
    {
      var head := repo.ResolveRef(branch);
      root := None;
      if head.Success? {
        root := repo.nodes[head.value].root;
      }
    }

    /**
     * One file operation inside its lock: read the root, edit the tree, commit.  A failed operation
     * changes no commit and no branch.
     */
    method RunLocked(branch: RefName, op: FileOp, nodeId: Id) returns (r: Result<()>)
      requires repo.Valid() && WellFormed(op)
      modifies repo, repo.store
      ensures repo.Valid() && Grown(old(repo.store.trees), repo.store.trees)
      ensures var before := old(repo.Tables());
              var root := Apply(op, RootOf(before.nodes, CommitGraph.ResolveRef(before, branch)));
              if root.None? then r == Failure(FileNotFound) && repo.Tables() == before
              else CarriedOut(r, Commit(before, branch, nodeId, root, false), before, repo.Tables())
    {
      var root := CurrentRoot(branch);
      var newRoot := Rebuild(op, root);
      if newRoot.Failure? {
        return Failure(newRoot.error);
      }
      r := repo.CommitInTransaction(branch, nodeId, Some(newRoot.value), false);
    }

    /** The tree part of an operation; the new directories are written to the table. */
    method Rebuild(op: FileOp, root: Option<TreeHash>) returns (r: Result<TreeHash>)
      requires repo.Valid() && WellFormed(op) && (root.Some? ==> root.value in repo.store.trees)
      modifies repo.store
      ensures repo.Valid() && Grown(old(repo.store.trees), repo.store.trees)
      ensures r.Success? <==> Apply(op, root).Some?
      ensures if r.Success? then r.value == Apply(op, root).value && r.value in repo.store.trees else r.error == FileNotFound
    {
      var h: TreeHash;
      match op {
        case Write(path, file) =>
          h := EditStored(root, path, Some(Blob(file)));
        case Delete(path) =>
          if root.None? { return Failure(FileNotFound); }
          h := EditStored(root, path, None);
        case Rename(from, to) =>
          var file :- LookUp(root, from);
          var intermediate := EditStored(root, from, None);
          h := EditStored(Some(intermediate), to, Some(Blob(file)));
        case Copy(from, to) =>
          var file :- LookUp(root, from);
          h := EditStored(root, to, Some(Blob(file)));
        case AddSubRepo(path, repo) =>
          h := EditStored(root, path, Some(SubRepo(repo)));
      }
      r := Success(h);
    }

    /** Looks a file up in the flattened tree. */
    method LookUp(root: Option<TreeHash>, path: Path) returns (r: Result<FileId>)
      requires repo.Valid() && (root.Some? ==> root.value in repo.store.trees)
      ensures var file := Visible(root, path);
              r == if file.Some? then Success(file.value) else Failure(FileNotFound)
    {
      if root.None? {
        return Failure(FileNotFound);
      }
      ClosedIsStored(repo.store.trees, root.value, LEVELS);
      var flat := repo.store.Flatten(root.value);
      FlatLook(root.value, path);
      r := if path in flat.value then Success(flat.value[path]) else Failure(FileNotFound);
    }

    method EditStored(root: Option<TreeHash>, path: Path, entry: Option<Entry>) returns (h: TreeHash)
      requires repo.Valid() && path != [] && !IsTree(entry) && (root.Some? ==> root.value in repo.store.trees)
      modifies repo.store
      ensures repo.Valid() && Grown(old(repo.store.trees), repo.store.trees)
      ensures h == Edit(root, path, entry) && h in repo.store.trees
    {
      ClosedSpine(repo.store.trees, root, path);
      var r := repo.store.WriteHierarchy(root, path, entry);
      h := r.value;
    }
  }

  lemma FlatLook(h: TreeHash, p: Path)
    ensures Look(Flat(h, LEVELS), p) == Visible(Some(h), p)
  {
    assert Flattens(Flat(h, LEVELS), h, LEVELS);
  }

  // ---------------------------------------------------------------- what an operation does at each path

  /** After an edit with a file, a sub-repository or nothing, a path shows that, nothing, or what it did. */
  lemma EditShows(root: Option<TreeHash>, p: Path, e: Option<Entry>, q: Path)
    requires p != [] && !IsTree(e)
    ensures At(Edit(root, p, e), q) ==
            if q == p then (if e.Some? then Some(Ref(e.value)) else None)
            else if Comparable(p, q) then None else RootAt(root, q)
  {
    EditLaw(root, p, e, q);
    if p <= q && q[|p|..] == [] { assert q == p; }
  }

  /** The file that an operation leaves at its destination, if it does not throw. */
  function Left(op: FileOp, root: Option<TreeHash>): Option<FileId> {
    match op
    case Write(_, file) => Some(file)
    case Delete(_) => None
    case Rename(from, _) => RootAt(root, from)
    case Copy(from, _) => RootAt(root, from)
    case AddSubRepo(_, repo) => Some("REPO:" + repo)
  }

  function Destination(op: FileOp): Path {
    match op
    case Write(path, _) => path
    case Delete(path) => path
    case Rename(_, to) => to
    case Copy(_, to) => to
    case AddSubRepo(path, _) => path
  }

  /**
   * Path by path: the destination shows the file, every path comparable with it nothing, and so does every
   * path comparable with the source of a move; all other paths show what they did.  An operation throws
   * exactly when there is no tree to delete from, or no file within 101 components to move or copy.
   */
  lemma OperationMeans(op: FileOp, root: Option<TreeHash>, q: Path)
    requires WellFormed(op)
    ensures Apply(op, root).None? <==>
            || (op.Delete? && root.None?)
            || ((op.Rename? || op.Copy?) && (|op.from| > 101 || RootAt(root, op.from).None?))
    ensures Apply(op, root).Some? ==>
              RootAt(Apply(op, root), q) ==
              if q == Destination(op) then Left(op, root)
              else if Comparable(Destination(op), q) || (op.Rename? && Comparable(op.from, q)) then None
              else RootAt(root, q)
  {
    match op
    case Write(path, file) => EditShows(root, path, Some(Blob(file)), q);
    case Delete(path) => EditShows(root, path, None, q);
    case Rename(from, to) =>
      if Apply(op, root).Some? {
        EditShows(root, from, None, q);
        EditShows(Some(Edit(root, from, None)), to, Some(Blob(RootAt(root, from).value)), q);
      }
    case Copy(from, to) =>
      if Apply(op, root).Some? { EditShows(root, to, Some(Blob(RootAt(root, from).value)), q); }
    case AddSubRepo(path, repo) => EditShows(root, path, Some(SubRepo(repo)), q);
  }

  // ---------------------------------------------------------------- what an operation does to the files

  /** A written path shows the file if the flattener sees that deep; comparable paths go in any case. */
  function Put(m: FlatTree, p: Path, file: FileId): FlatTree {
    if |p| <= LEVELS then Without(m, p)[p := file] else Without(m, p)
  }

  /** The flat tree after an operation, in terms of the flat tree before it. */
  ghost function ApplyFlat(op: FileOp, m: FlatTree): FlatTree
    requires WellFormed(op)
  {
    match op
    case Write(path, file) => Put(m, path, file)
    case Delete(path) => Without(m, path)
    case Rename(from, to) => if from in m then Put(Without(m, from), to, m[from]) else m
    case Copy(from, to) => if from in m then Put(m, to, m[from]) else m
    case AddSubRepo(path, repo) => Put(m, path, "REPO:" + repo)
  }

  /** The flat tree of a branch; an empty branch has no files. */
  ghost function RootFlat(root: Option<TreeHash>): FlatTree {
    if root.Some? then Flat(root.value, LEVELS) else map[]
  }

  /** Each operation does to the flat tree what it says, and nothing else. */
  lemma ApplyIsApplyFlat(op: FileOp, root: Option<TreeHash>)
    requires WellFormed(op) && Apply(op, root).Some?
    ensures RootFlat(Apply(op, root)) == ApplyFlat(op, RootFlat(root))
  {
    var empty := Digest(map[]);
    if root.None? {
      NoFiles();
      assert Apply(op, root) == Apply(op, Some(empty));
    }
    var r := if root.Some? then root.value else empty;
    match op
    case Write(path, file) => EditFlat(r, path, Some(Blob(file)), LEVELS);
    case Delete(path) => EditFlat(r, path, None, LEVELS);
    case Rename(from, to) =>
      FlatLook(r, from);
      MoveFlat(r, from, to, LEVELS);
    case Copy(from, to) =>
      FlatLook(r, from);
      EditFlat(r, to, Some(Blob(Flat(r, LEVELS)[from])), LEVELS);
    case AddSubRepo(path, repo) => EditFlat(r, path, Some(SubRepo(repo)), LEVELS);
  }

  // ---------------------------------------------------------------- heads without a tree

  /** On a head without a tree hash, a write leaves a branch that shows the written file and no other. */
  lemma WriteOnTreelessHead(path: Path, file: FileId)
    requires path != []
    ensures RootFlat(Apply(Write(path, file), None)) == Put(map[], path, file)
  {
    ApplyIsApplyFlat(Write(path, file), None);
    assert Without(map[], path) == map[];
  }

  /** A soft reset is such a head, so the next write drops every other file of the branch. */
  lemma SoftResetForgets(g: Graph, branch: RefName, target: RefName, id: Id, path: Path, file: FileId)
    requires branch in g.branches && path != [] && CommitGraph.Reset(g, branch, target, Some(id)).Success?
    ensures var g' := CommitGraph.Reset(g, branch, target, Some(id)).value;
            var root := RootOf(g'.nodes, CommitGraph.ResolveRef(g', branch));
            root == None && RootFlat(Apply(Write(path, file), root)) == Put(map[], path, file)
  {
    WriteOnTreelessHead(path, file);
  }

  /** So is a plain commit, which names no tree. */
  lemma PlainCommitForgets(g: Graph, branch: RefName, id: Id, path: Path, file: FileId)
    requires path != [] && Commit(g, branch, id, None, true).Success?
    ensures var g' := Commit(g, branch, id, None, true).value;
            var root := RootOf(g'.nodes, CommitGraph.ResolveRef(g', branch));
            root == None && RootFlat(Apply(Write(path, file), root)) == Put(map[], path, file)
  {
    WriteOnTreelessHead(path, file);
  }

  lemma NoFiles()
    ensures Flat(Digest(map[]), LEVELS) == map[]
  {
    var m := Flat(Digest(map[]), LEVELS);
    forall p ensures p !in m {
      assert At(Digest(map[]), p).None?;
    }
  }
}
