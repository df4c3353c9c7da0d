# A verified model of BroccoliDB's repository core and its mutation runtime

BroccoliDB keeps source files for coding agents. Three layers of it are modelled here, and properties of
each are proved for all inputs, all runs or all interleavings:

1. **The content-addressed repository** (`broccolidb/core/repository.ts`, `file-tree.ts`). Directories are
   Merkle nodes stored by hash, commits form a forest of parent pointers, branches point at commits.
   Several algorithms work on the same data and have to agree: the path edit, the lookup, the flattener,
   the hierarchical and the flat three-way merge, ancestor search, blame, bisect, and garbage collection.
2. **The concurrency layer** (`mutex.ts`, `executor.ts`, `lru-cache.ts`): a lock built from promise chains
   with timeouts, a counting limiter with a wait queue, and the cache in front of every store read.
3. **The mutation runtime** (`lib/agent/native_mutation.py`): a unified-diff applier with a running offset
   and a drift search, and the coherence-token protocol that guards patches.

## How the model is organised

| file | contents |
|---|---|
| `Wrappers.dfy`, `Paths.dfy` | options, results and error codes; paths as lists of components |
| `MerkleTrees.dfy` | what a tree hash denotes; edit, lookup, flattening, depth |
| `TreeMerge.dfy` | the two merges, refinement, laws, exact conflicts, exact failures |
| `TreeViews.dfy` | what readers see: files, lookups and walks over an arbitrary view of the directories |
| `TreeStorage.dfy` | the tree table as an object; the walking and writing methods |
| `TreeCache.dfy` | the tree cache with object identity; what edits do to it and to its readers |
| `CachedFileTree.dfy`, `CachedReaders.dfy`, `CachedMerge.dfy` | file operations, collection, blame and merge over that cache |
| `TreeSerialisation.dfy` | the text that is hashed for a directory |
| `CommitGraph.dfy`, `GarbageCollection.dfy` | tables, operations on them, every run; what collection keeps |
| `Repository.dfy` | the repository object: operations, searches, collector |
| `TaskMutex.dfy`, `FileTree.dfy`, `FileHistory.dfy` | the lock, the file operations, all their interleavings |
| `LRUCache.dfy`, `ActionExecutor.dfy`, `Arithmetic.dfy` | cache inclusion; limiter and retry loop |
| `UnifiedDiff.dfy` | the diff applier |
| `CoherenceTokens.dfy`, `NativeMutation.dfy` | the token protocol as a step system; the manager object |

Most parts have two halves. Objects whose fields the program updates in place are classes with the same
fields (`TreeStore`, `CachedTreeStore`, `Repository`, `FileTree`, `TaskMutex`, `LRUCache`, `ActionExecutor`,
`NativeMutationManager`). Each method is proved to carry out a function of the old state, errors included,
and to keep the object's invariant. What the program promises is then proved about those functions, over
whole runs where it spans calls.

Hashes are symbolic: `Digest(entries)` is a free constructor, so two directories have the same hash exactly
when they have the same entries. `TreeSerialisation` is about the text under the hash and says when that
reading is justified.

## Where the code differs from what it says

Each of these is stated as a lemma or a method contract, with its exact condition where there is one.

- **Snapshots are not immutable.** `file-tree.ts:21-23` promises an immutable snapshot at each commit, but
  `getTree` returns the cached object (`repository.ts:839-840`) and `writeHierarchy` edits it in place
  (`file-tree.ts:144-158`). After an edit exactly the directories on its way that it does not write again read
  wrongly, each as what it became (`TreeCache.CachedTreeStore.EditCoherent`). That has consequences:
  - *Equal directories are one object.* After `a/x` and `b/x` with the same content, writing `a/y` shows `b/y`
    (`TreeCache.SharedDirectory`), and the next write into `b` commits it (`TreeCache.NextWriteCommitsIt`). The
    new tree reads right if and only if no displaced directory occurs in it
    (`TreeCache.CachedTreeStore.EditFaithful`).
  - *Every old root reads as a newer one.* A second branch that starts from the same commit, or the next call
    after one that did not commit, commits files that were never written there
    (`TreeCache.TwoWritesOnOneRoot`). The result of an edit is right if and only if what it reads on its way
    agrees with the tree off the path (`TreeCache.BuiltIsEditExactlyWhen`).
  - *Runs.* The laws about edits, moves, replayed logs and lost updates are about directories as values. The
    code meets them as long as no edit and no lookup meets a directory that reads wrongly. After each edit these
    are the ones before it and the displaced ones, less the written ones
    (`TreeCache.CachedTreeStore.EditRun`, `CachedFileTree.RunCalls`); after a restart there are none.
  - *Collection deletes live directories.* The collector walks through the same cache. After `d/x` and `d/y` it
    does not see the directory of the first commit, which survives without it
    (`CachedReaders.CollectionHidesDirectory`, `CachedReaders.HiddenIsDeleted`). A surviving commit stays
    readable if and only if the collector saw every directory of it
    (`GarbageCollection.SurvivorReadableExactlyWhen`).
  - *Blame names older commits.* After writing `a` and `b`, blame of `b` names the commit of `a`
    (`CachedReaders.BlameAfterTwoWrites`); it is right where the roots read right (`Repository.BlameReadsRight`).
  - *Merges drop files.* The base of a merge is normally a root that has been edited since. A file written on it
    then looks unchanged and is dropped without a conflict (`CachedMerge.MergeAfterWrite`). The merge is right
    when its three trees read right (`CachedMerge.MergeTrees`), and decides one name right if and only if the
    base as read equals each side exactly when the base does (`CachedMerge.DecideExactlyWhen`).
- **The merge throws on new directories.** When both sides hold different directories at a path and the base
  holds none there, `mergeTrees` asks for the tree `''` and throws. It fails if and only if there is such a
  path (`TreeMerge.MergeFailsWhen`).
- **Hashed texts can be ambiguous.** With colon-free names, the text determines the directory if and only if all
  sub-repository ids have the same width (`TreeSerialisation.UniquelyDecodableExactlyWhen`); nothing in
  `addSubRepo` sees to that. Path validation (`errors.ts:117-131`) accepts colons in names, and then two
  directories of ordinary files feed the same text and share one hash (`TreeSerialisation.ColonNamesCollide`).
- **Depth.** Both tree walks see 101 levels. A file written deeper is never listed, yet it still clears every
  comparable path (`MerkleTrees.EditFlat`). Collection is exact when every surviving root reads right and none is
  deeper (`Repository.Repository.GcExactly`); a deeper tree loses live inner directories
  (`Repository.DeepTreeIsDeleted`).
- **Collection takes no lock.** A directory that a file operation has written and not committed is deleted
  under it (`Repository.UnreachedTreeIsDeleted`), unless the isolation of the database pool, which is not part
  of this model, hides it from the collector.
- **Heads without a tree hash.** After a plain commit or a soft reset, the next file write starts from an empty
  tree and drops every other file (`FileTree.PlainCommitForgets`, `FileTree.SoftResetForgets`).
- **Two lock keys.** File operations lock `repo:…:branch:…` (`file-tree.ts:91`), `commit` and `merge` lock
  `branch:…` (`repository.ts:468`). Commits under the other key may fall between the read and the commit of
  a file operation. They stay in the history, but their files are kept if and only if they left alone what the
  operation reads and changed none off the edited paths (`FileHistory.OverwrittenExactlyWhen`).
- **Pure insertions go in one line early.** A hunk that only inserts names the line before it, but the diff
  applier takes the old start for the first old line (`native_mutation.py:101`). The result is right if and
  only if each such hunk stands at the top or repeats the line before it (`UnifiedDiff.ApplyIsReplacement`,
  `UnifiedDiff.InsertionGoesInEarly`), and the same holds for reversing pure deletions
  (`UnifiedDiff.ReverseRestoresExactlyWhen`).
- **The concurrency limit can be exceeded**, by an arrival that takes the slot of a woken task, and by nothing
  else (`ActionExecutor.LimitBrokenExactlyWhen`).
- **Dead code.** The mutex never removes a map entry (`TaskMutex.CleanupNeverFires`), and the branch of `blame`
  that returns the commit before a missing file is never reached (`Repository.Repository.Blame`).

## Model

| member | source | states |
|---|---|---|
| `Paths.SplitJoin` | broccolidb/core/errors.ts:107-131 | Splitting a canonical path at its slashes gives back the components it was joined from, so working on components loses nothing. |
| `Paths.JoinSnoc` | broccolidb/core/repository.ts:900-900 | The key the flattener builds for a child is the joined path of its components. |
| `Paths.RemainingIsEmpty` | broccolidb/core/file-tree.ts:138-150 | The test for a non-empty rest of the path is the test for more than one component. |
| `MerkleTrees.FilePathsAreFiles` | broccolidb/core/repository.ts:885-910 | The file paths of a tree are finitely many and are exactly the paths that hold a file. |
| `MerkleTrees.Flat` | broccolidb/core/repository.ts:885-910 | The flat map of a tree lists exactly the files within the depth, with their contents. |
| `MerkleTrees.EditLaw` | broccolidb/core/file-tree.ts:133-163 | After an edit at any path, every path reads: the new entry below it, nothing strictly above it, and as before where not comparable. |
| `MerkleTrees.EditFlat` | broccolidb/core/file-tree.ts:133-163 | A write, delete or sub-repository edit at any path removes exactly the comparable paths from the flat tree and adds the new one when it lies within the listed levels. |
| `MerkleTrees.MoveFlat` | broccolidb/core/file-tree.ts:460-482 | A move of a listed file does to the flat tree what a delete followed by a write does, for every destination, and the old path is gone unless it is the new one. |
| `MerkleTrees.ResolveIsAt` | broccolidb/core/file-tree.ts:234-250 | A lookup that does not end at a directory answers with the file at the path, and with nothing when there is none. |
| `MerkleTrees.ResolveAgreesWithFlat` | broccolidb/core/file-tree.ts:234-250 | For paths of at most 101 components, flattened files are what lookup returns, and lookups that end at no directory return flattened files. |
| `TreeMerge.MergedEntry` | broccolidb/core/repository.ts:1311-1340 | A merged directory holds for every name what the merge decided for it, and a conflict path starts with a name whose own merge reported the rest. |
| `TreeMerge.CalculateMerge` | broccolidb/core/repository.ts:1385-1412 | In whatever order the paths are visited, the flat merge yields the path-by-path three-way merge and lists each conflicting path once. |
| `TreeMerge.MergeAgreesAt` | broccolidb/core/repository.ts:1284-1345 | At every path not under a reported conflict, the hierarchical merge holds what the flat merge decides there, and the flat merge finds no conflict. |
| `TreeMerge.MergeRefinesFlatMerge` | broccolidb/core/repository.ts:1284-1345 | Without conflicts, flattening the merged tree equals the conflict-free flat merge of the three flattened trees; in general every flat conflict is reported at its path or above. |
| `TreeMerge.MergeSymmetric` | broccolidb/core/repository.ts:1291-1344 | Swapping source and target fails alike, reports the same conflict set, and when clean gives the same tree. |
| `TreeMerge.MergeBackToBase` | broccolidb/core/repository.ts:1291-1344 | A clean merge that ends at the base can only have had the base as its source. |
| `TreeMerge.MergeIdempotent` | broccolidb/core/repository.ts:1291-1344 | Merging the same source again into a clean result changes nothing and reports no conflict. |
| `TreeMerge.ConflictsAreContested` | broccolidb/core/repository.ts:1316-1340 | The conflict set is exactly the paths, under directories on both sides, that hold three different entries not both directories. |
| `TreeMerge.ConflictsKeepTarget` | broccolidb/core/repository.ts:1330-1340 | At a conflict the merged tree holds what the target holds there. |
| `TreeMerge.FlatMergeMeans` | broccolidb/core/repository.ts:1385-1412 | Path by path: a side that kept the base yields to the other, equal sides agree, three different contents are a conflict, at which the target stays. |
| `TreeMerge.EntriesTellFiles` | broccolidb/core/file-tree.ts:234-250 | The file and the lookup at a path are those of the entry there. |
| `TreeMerge.MergeFailsWhen` | broccolidb/core/repository.ts:1295-1329 | The merge of two roots with a base throws if and only if at some path both sides hold different directories and the base holds none. |
| `TreeMerge.BothAddADirectory` | broccolidb/core/repository.ts:1328-1329 | A smallest input on which the merge throws: both sides add a directory of the same name with different files. |
| `TreeStorage.TreeStore.GetTree` | broccolidb/core/repository.ts:838-851 | Reading a stored hash gives its row, any other hash is an error, and the table is untouched. |
| `TreeStorage.TreeStore.WriteTree` | broccolidb/core/repository.ts:762-791 | Exactly one row is upserted, under the hash of its entries. |
| `TreeStorage.TreeStore.WriteHierarchy` | broccolidb/core/file-tree.ts:133-163 | Builds the edited tree exactly when the directories on the way are stored; keeps all older rows; keeps the table closed; changes nothing when it throws. |
| `TreeStorage.TreeStore.ResolvePathToHash` | broccolidb/core/file-tree.ts:234-250 | Over whatever the rows hold: answers with what is seen at the path, exactly when the directories on the way can be read. |
| `TreeStorage.TreeStore.FlattenTree` | broccolidb/core/repository.ts:885-910 | Over whatever the rows hold: adds to the accumulator exactly the files seen within the remaining depth, under the prefix, and fails exactly when such a directory cannot be read. |
| `TreeStorage.TreeStore.Flatten` | broccolidb/core/repository.ts:885-910 | From a root, the walk yields the flat map of what is seen down to 101 levels, and of the tree itself when rows are stored under their own hashes. |
| `TreeStorage.TreeStore.MergeTrees` | broccolidb/core/repository.ts:1284-1345 | Over a closed table, merges exactly when the tree merge is defined and stores the result; no row is lost or changed. |
| `TreeStorage.TreeStore.MergeEntries` | broccolidb/core/repository.ts:1299-1343 | The loop over names decides every name as the tree merge does, in any order, and fails only for a name whose merge is undefined. |
| `TreeStorage.TreeStore.MergeEntry` | broccolidb/core/repository.ts:1306-1340 | One round of the loop: the outcome of one name, with its directory stored when one is made. |
| `TreeStorage.TreeStore.MarkTreeReachable` | broccolidb/core/repository.ts:1763-1777 | Over whatever the rows hold: marks the root and only directories seen from it within the depth; when no walk is longer, everything seen from the newly marked ones is marked. |
| `TreeViews.SeenInIsAt` | broccolidb/core/repository.ts:885-910 | Where the directories of a tree read right, readers find at every path the file and the lookup answer that are there. |
| `TreeViews.FlatInIsFlat` | broccolidb/core/repository.ts:885-910 | Where the directories of a tree read right, the flat tree that readers get is the flat tree. |
| `TreeViews.ReachesIsContains` | broccolidb/core/repository.ts:1763-1777 | Where a tree reads right, walking down from it comes to exactly the directories it contains, level by level. |
| `TreeViews.ClosedIsRight` | broccolidb/core/repository.ts:838-851 | In a closed table that stores every row under its own hash, every stored tree reads right. |
| `TreeViews.ClosedIsStored` | broccolidb/core/repository.ts:885-910 | In a closed view every walk from a readable root finds all its directories. |
| `TreeViews.ClosedSpine` | broccolidb/core/file-tree.ts:133-163 | In a closed view every path edit and lookup finds the directories on its way. |
| `TreeCache.CachedTreeStore.GetTree` | broccolidb/core/repository.ts:838-851 | A hit returns the cached object itself, a miss caches the object it returns. |
| `TreeCache.CachedTreeStore.WriteTree` | broccolidb/core/repository.ts:762-791 | The object handed in becomes the cached object of its new hash. |
| `TreeCache.CachedTreeStore.WriteName` | broccolidb/core/file-tree.ts:144-162 | A path of one component, whatever the object holds: it is edited in place and cached under the new hash as well. |
| `TreeCache.CachedTreeStore.WriteHierarchy` | broccolidb/core/file-tree.ts:133-163 | For every path and whatever the cached objects hold: the result is the tree built from what is read, each touched object holds what was built from it, the written ones their own directories, and cache and table change nowhere else; it fails exactly when a directory on the way cannot be read. |
| `TreeCache.BuiltIsEditExactlyWhen` | broccolidb/core/file-tree.ts:133-163 | The result of an edit is the edited tree if and only if, from directory to directory, what is read on the way agrees with the tree off the path. |
| `TreeCache.RightSpine` | broccolidb/core/file-tree.ts:133-163 | Where the directories on the way read right, the edit reads and writes exactly what it should. |
| `TreeCache.RightIsSeparate` | broccolidb/core/file-tree.ts:144-158 | Where they read right, no directory and no object comes twice on the way. |
| `TreeCache.CachedTreeStore.EditAsRead` | broccolidb/core/file-tree.ts:133-163 | For readers, whatever they saw before: new directories read as themselves, the others on the way as what was built from them, and the rest as before or, where an object is shared, as a new directory. |
| `TreeCache.SpineBelow` | broccolidb/core/file-tree.ts:144-158 | The directories on the way of an edit are the root or strictly inside it, so no object is edited twice. |
| `TreeCache.BecomesSpine` | broccolidb/core/file-tree.ts:144-158 | What a directory on the way becomes is one of the written directories. |
| `TreeCache.InsideEdited` | broccolidb/core/file-tree.ts:144-162 | The directories of the edited tree are those just written and those of the old tree. |
| `TreeCache.CachedTreeStore.EditPath` | broccolidb/core/file-tree.ts:133-163 | Where the directories on the way read right: the result is the edited tree, each displaced directory reads as what it became, which is not itself, and whatever else read right still does. |
| `TreeCache.CachedTreeStore.EditCoherent` | broccolidb/core/file-tree.ts:144-158 | From a cache in which everything reads as itself, exactly the directories on the way that are not written again read wrongly afterwards. |
| `TreeCache.CachedTreeStore.EditFaithful` | broccolidb/core/file-tree.ts:144-158 | The tree just built reads right if and only if no displaced directory occurs in it elsewhere. |
| `TreeCache.CachedTreeStore.SeenIsAt` | broccolidb/core/repository.ts:885-910 | Walking a tree that reads right finds at every path the file that is there. |
| `TreeCache.CachedTreeStore.EditAll` | broccolidb/core/file-tree.ts:133-163 | A run of edits, each on the tree the one before returned, gives the right trees as long as every edit is of that kind. |
| `TreeCache.CachedTreeStore.EditSafely` | broccolidb/core/file-tree.ts:133-163 | An edit of any tree that meets no directory reading wrongly is right, and afterwards exactly the old wrong ones and the displaced ones, less the written ones, read wrongly. |
| `TreeCache.CachedTreeStore.EditRun` | broccolidb/core/file-tree.ts:133-163 | Any edits of any trees in any order, from several branches, old commits or calls that never commit, are all right as long as each meets no directory reading wrongly; which do is known exactly. |
| `TreeCache.CachedTreeStore.RestartReadsRight` | broccolidb/core/repository.ts:838-851 | With an empty cache everything reads right. |
| `TreeCache.RightSpineSeen` | broccolidb/core/file-tree.ts:501-512 | A lookup that meets only directories reading right finds the file that is there. |
| `TreeCache.FileInRootIsClean` | broccolidb/core/file-tree.ts:91-127 | Writing a file directly in the root never displaces a directory that the new tree still holds. |
| `TreeCache.TwoWritesOnOneRoot` | broccolidb/core/file-tree.ts:91-127 | Two writes from the same root, in two branches or after a call that did not commit: the second result holds the first file as well, although both edits are clean. |
| `TreeCache.TwinIsDisplaced` | broccolidb/core/file-tree.ts:144-158 | If two names of a root hold the same directory, every write that changes one of them displaces the other. |
| `TreeCache.WriteInTwin` | broccolidb/core/file-tree.ts:144-158 | After a write in one of two equal directories, a reader of the new tree finds the file in the other one, too, although it is not there. |
| `TreeCache.NextWriteCommitsIt` | broccolidb/core/file-tree.ts:133-163 | The next write into the other directory commits the mistake: the stored tree holds the file at the path where it was never written. |
| `TreeCache.SharedDirectory` | broccolidb/core/file-tree.ts:133-163 | From an empty repository, writing `a/x` and `b/x` with the same content and then `a/y` shows `b/y`. |
| `TreeCache.SnapshotChanges` | broccolidb/core/file-tree.ts:21-23 | One write suffices: the first commit's snapshot shows a file that only the second one added. |
| `CachedFileTree.RunOp` | broccolidb/core/file-tree.ts:91-127 | Over the cache as it is, a file operation whose edits are clean comes to the same tree as on values and leaves it reading right. |
| `CachedFileTree.LookUp` | broccolidb/core/file-tree.ts:501-512 | On a tree that reads right, the walk through the cache finds the file that a move or copy takes. |
| `CachedFileTree.RunLog` | broccolidb/core/file-tree.ts:91-127 | A log of clean operations, carried out one after the other on cached objects, comes to the replayed tree. |
| `CachedFileTree.RunSafely` | broccolidb/core/file-tree.ts:91-127 | An operation whose lookup and edits meet no directory reading wrongly gives the right tree from any root, and which directories read wrongly afterwards is known. |
| `CachedFileTree.RunCalls` | broccolidb/core/file-tree.ts:91-127 | Operations of any branches on the roots they found, committed or not, all come to the right trees as long as they are safe. |
| `CachedReaders.BuiltNames` | broccolidb/core/file-tree.ts:144-162 | The directories an edit builds name only each other and directories that were seen. |
| `CachedReaders.EditKeepsClosed` | broccolidb/core/file-tree.ts:133-163 | No edit makes a reader see a directory that cannot be read. |
| `CachedReaders.Snapshot` | broccolidb/core/repository.ts:838-851 | The walks that only read may be taken over a snapshot of what readers of the cache see. |
| `CachedReaders.HiddenIsDeleted` | broccolidb/core/repository.ts:1763-1777 | A directory that the collector does not see is deleted, and the tree of the surviving commit that holds it can no longer be read from the rows. |
| `CachedReaders.CollectionHidesDirectory` | broccolidb/core/repository.ts:1763-1777 | Writing `d/x` and then `d/y` is enough: the directory of the first commit is stored and live, and no walk over the cache comes to it. |
| `CachedReaders.BlameNamesOlder` | broccolidb/core/repository.ts:1840-1886 | When the older root reads as the newer one, blame names the older commit for every file the newer one shows. |
| `CachedReaders.BlameAfterTwoWrites` | broccolidb/core/repository.ts:1840-1886 | Writing `a` and then `b` is enough: blame of `b` names the commit of `a`. |
| `CachedMerge.MergeTrees` | broccolidb/core/repository.ts:1284-1345 | Over the cache as it is: the merge of the three trees when all three read right; in general every name that is not a pair of directories is decided on what is read, and whatever reads right still does. |
| `CachedMerge.MergeEntries` | broccolidb/core/repository.ts:1299-1343 | The loop over names holds the outcome of each, in any order, and fails only at a pair of directories. |
| `CachedMerge.MergeEntry` | broccolidb/core/repository.ts:1306-1340 | One name: decided on what was read for base and target, and as the tree merge does when they read right. |
| `CachedMerge.DecideExactlyWhen` | broccolidb/core/repository.ts:1311-1326 | A misread base decides a name right if and only if both sides are equal or it equals each side exactly when the true base does. |
| `CachedMerge.MergeAfterWrite` | broccolidb/core/repository.ts:1284-1345 | A file that one branch wrote in the root of the merge base is dropped without a conflict, although the merge of the trees takes it. |
| `TreeSerialisation.SortSorts` | broccolidb/core/repository.ts:748-748 | Sorting yields the same names in strictly ascending order. |
| `TreeSerialisation.ChunkText` | broccolidb/core/repository.ts:750-755 | The text of an entry is its name, its kind and its hash between colons. |
| `TreeSerialisation.SortedText` | broccolidb/core/repository.ts:747-757 | Chunks in sorted order are the canonical text of the entry map. |
| `TreeSerialisation.TreeHashInput` | broccolidb/core/repository.ts:747-757 | The text fed to the hash is the canonical text of the entries, for every insertion order. |
| `TreeSerialisation.SameEntriesSameText` | broccolidb/core/repository.ts:747-757 | Two objects with the same entries feed the same text, whatever their insertion orders. |
| `TreeSerialisation.ChunkDecodes` | broccolidb/core/repository.ts:750-755 | The first chunk of a text is read off in one way only, given colon-free names and one width of hashes per kind. |
| `TreeSerialisation.SerialiseInjective` | broccolidb/core/repository.ts:747-757 | With colon-free names, 64-character hashes and one width of sub-repository ids, two entry maps with the same text are equal. |
| `TreeSerialisation.UniquelyDecodableExactlyWhen` | broccolidb/core/repository.ts:747-757 | For colon-free names and any set of allowed widths of sub-repository ids: the text determines the directory if and only if the set has at most one width. |
| `TreeSerialisation.ColonNamesCollide` | broccolidb/core/repository.ts:747-757 | With a colon in a name, a directory of two files and one of a single file feed the same text. |
| `TreeSerialisation.SubRepoTextsCollide` | broccolidb/core/file-tree.ts:381-420 | Moving characters between a sub-repository id and the next name gives another directory with the same text. |
| `CommitGraph.LineIsNth` | broccolidb/core/repository.ts:952-963 | A history lists the k-th ancestor in place k, down to the limit and no further. |
| `CommitGraph.LineShrinks` | broccolidb/core/repository.ts:952-963 | Along a history every commit is older than the one before it. |
| `CommitGraph.HistoryEnds` | broccolidb/core/repository.ts:952-963 | In a sound graph history without limit terminates: no commit repeats and the last has no parent. |
| `CommitGraph.CommitSound` | broccolidb/core/repository.ts:565-685 | A commit keeps the parent relation acyclic and every ref present. |
| `CommitGraph.ResetSound` | broccolidb/core/repository.ts:1549-1626 | Hard and soft resets keep the parent relation acyclic and every ref present. |
| `CommitGraph.CollectSound` | broccolidb/core/repository.ts:1648-1741 | Collection keeps the parent relation acyclic and every surviving ref present. |
| `CommitGraph.NextSound` | broccolidb/core/repository.ts:384-451 | Every operation, failing ones included, keeps the graph sound. |
| `CommitGraph.RunSound` | broccolidb/core/repository.ts:384-451 | In every run of branch, commit, reset, tag, stash and collection steps the parent relation stays acyclic and nothing dangles. |
| `CommitGraph.HistoryStable` | broccolidb/core/repository.ts:952-963 | No operation changes the history of a commit that still exists. |
| `CommitGraph.CommitHistory` | broccolidb/core/repository.ts:565-685 | The branch resolves to the new commit, and its history is the new commit followed by the history of the old head. |
| `CommitGraph.SoftResetHistory` | broccolidb/core/repository.ts:1549-1626 | After a soft reset the old head and its history stay below the new commit. |
| `CommitGraph.ResolveOrder` | broccolidb/core/repository.ts:280-312 | Branches shadow tags and tags shadow commit ids; an empty branch resolves to nothing even where a tag has its name. |
| `CommitGraph.CreateBranchMeans` | broccolidb/core/repository.ts:384-413 | The new branch resolves to what its start did and has the given kind and age; nothing else changes; it fails if and only if the start does not resolve. |
| `CommitGraph.DeleteBranchMeans` | broccolidb/core/repository.ts:437-451 | That branch goes and nothing else changes; refused if and only if it is `main` or `master`. |
| `CommitGraph.CommitMeans` | broccolidb/core/repository.ts:565-685 | One node is added with the old head as parent and the given tree, the branch keeps kind and age, and the log grows exactly when asked to; it fails if and only if the branch is missing or the id taken. |
| `CommitGraph.HardResetMeans` | broccolidb/core/repository.ts:1549-1626 | The branch then resolves to what the target did and has its history; no node and no other branch, tag or stash changes; the log gains the old head and the target. |
| `CommitGraph.SoftResetMeans` | broccolidb/core/repository.ts:1549-1626 | One node without a tree hash is added on the old head and the branch resolves to it; the log gains both; nothing else changes. |
| `CommitGraph.TagMeans` | broccolidb/core/repository.ts:912-948 | The tag resolves to what the ref did unless a branch has its name, no other name resolves differently, and deleting removes just the tag. |
| `CommitGraph.StashMeans` | broccolidb/core/repository.ts:1485-1508 | The stash keeps the commit that the branch resolves to, and nothing else changes. |
| `GarbageCollection.AncestorsMarked` | broccolidb/core/repository.ts:1743-1761 | A marked set closed under parents holds every ancestor of its members. |
| `GarbageCollection.SeenMarked` | broccolidb/core/repository.ts:1763-1777 | A marked set closed under what is seen from its members holds everything a walk from them comes to. |
| `GarbageCollection.CollectedTreesClosed` | broccolidb/core/repository.ts:1648-1741 | The collected tree table is closed and holds the root of every surviving commit. |
| `GarbageCollection.SurvivorsIntact` | broccolidb/core/repository.ts:1648-1741 | Every surviving commit keeps its row and its history. |
| `GarbageCollection.SurvivorReadableExactlyWhen` | broccolidb/core/repository.ts:1648-1741 | As long as no walk is too long, the tree of a surviving commit can still be read from the rows if and only if the collector saw every directory of it; where the roots read right it can. |
| `GarbageCollection.LiveTreesStayExactlyWhen` | broccolidb/core/repository.ts:1648-1741 | As long as no walk is too long, every live directory stays if and only if the collector sees every one. |
| `GarbageCollection.CollectedExactly` | broccolidb/core/repository.ts:1648-1741 | Where every surviving root reads right and none is too deep, exactly the live trees stay. |
| `GarbageCollection.CollectedView` | broccolidb/core/repository.ts:1648-1741 | A table collected through itself shows the collector the same again. |
| `GarbageCollection.BranchesSurvive` | broccolidb/core/repository.ts:1648-1741 | A branch goes if and only if it is ephemeral and was created more than 3600000 ms ago; a surviving one is unchanged and resolves to the same, still present commit. |
| `GarbageCollection.OrdinaryBranchSurvives` | broccolidb/core/repository.ts:1654-1674 | A branch that is not ephemeral survives every collection with its head and its whole history, whatever its age. |
| `GarbageCollection.CommitSurvivesExactlyWhen` | broccolidb/core/repository.ts:1677-1719 | A commit stays if and only if a surviving branch, a tag, a stash or either side of the log reaches it along parents, and then its row is unchanged. |
| `GarbageCollection.CollectKeepsRefs` | broccolidb/core/repository.ts:1648-1741 | Tags, stashes and the log stay as they are, and no remaining branch or commit changes. |
| `GarbageCollection.CollectTwice` | broccolidb/core/repository.ts:1648-1741 | Collecting again at the same time removes no branch, no commit and no live tree. |
| `GarbageCollection.ChainContains` | broccolidb/core/repository.ts:1768-1768 | A nest of d directories reaches its innermost one exactly with more than d levels. |
| `GarbageCollection.DeepTreeIsMissed` | broccolidb/core/repository.ts:1768-1768 | With a tree of more than 101 levels as the only root, the innermost directory is live and out of reach of the walk. |
| `Repository.Repository.constructor` | broccolidb/core/repository.ts:150-164 | A new repository is empty and sound. |
| `Repository.Repository.ResolveRef` | broccolidb/core/repository.ts:280-312 | A ref resolves as a branch, then as a tag, then as a commit id; an empty branch does not resolve. |
| `Repository.Repository.CreateBranch` | broccolidb/core/repository.ts:384-413 | The branch points at what the start ref resolves to, an unknown ref changes nothing, and the repository stays sound. |
| `Repository.Repository.DeleteBranch` | broccolidb/core/repository.ts:437-451 | Only that branch goes; `main` and `master` are refused; the repository stays sound. |
| `Repository.Repository.CommitInTransaction` | broccolidb/core/repository.ts:565-685 | Adds exactly one node on the branch's head and moves the head to it, or changes nothing; the repository stays sound. |
| `Repository.Repository.Reset` | broccolidb/core/repository.ts:1549-1626 | Moves the head, with a new node on the old head when soft, and logs both heads, or changes nothing; the repository stays sound. |
| `Repository.Repository.TagRef` | broccolidb/core/repository.ts:912-931 | The tag points at what the ref resolves to, nothing else changes, and the repository stays sound. |
| `Repository.Repository.DeleteTag` | broccolidb/core/repository.ts:938-948 | Only that tag goes, and the repository stays sound. |
| `Repository.Repository.Stash` | broccolidb/core/repository.ts:1485-1508 | The stash keeps the branch's head; an empty branch is refused; the repository stays sound. |
| `Repository.Repository.History` | broccolidb/core/repository.ts:952-963 | Lists the commit a ref resolves to and its nearest ancestors, newest first, up to the limit. |
| `Repository.Repository.NearAncestors` | broccolidb/core/repository.ts:2026-2034 | The first loop collects the commit and its nearest ancestors, 1001 in all if there are so many. |
| `Repository.Repository.FindLCA` | broccolidb/core/repository.ts:2026-2043 | Returns the ancestor of the second commit nearest to it among the first one's 1001 nearest, and nothing exactly when none of those is its ancestor. |
| `Repository.LowestCommonAncestor` | broccolidb/core/repository.ts:2026-2043 | When the first commit's whole line fits the bound, every common ancestor is an ancestor of the result. |
| `Repository.Repository.Blame` | broccolidb/core/repository.ts:1840-1886 | The blamed commit is the oldest of the newest run of commits that show the file, as the reader sees it, with its present content; not found exactly when the head does not show it. |
| `Repository.Repository.ResolveTree` | broccolidb/core/repository.ts:857-883 | A commit with a root hash resolves to what the reader sees below it, which can always be read; others to what their flat columns give. |
| `Repository.IntroducedOnce` | broccolidb/core/repository.ts:1840-1886 | There is only one commit that blame can name. |
| `Repository.BlameReadsRight` | broccolidb/core/repository.ts:1840-1886 | Where the roots of the listed commits read right, blame names the commit that the trees themselves say. |
| `Repository.TakeThrough` | broccolidb/core/repository.ts:2074-2083 | The loop cuts the history off right after the good commit. |
| `Repository.ThroughEnds` | broccolidb/core/repository.ts:2074-2086 | The range is a prefix of the history, and it ends at the good commit exactly when the history contains it. |
| `Repository.BisectRange` | broccolidb/core/repository.ts:2088-2103 | With a bad newest and a good oldest commit the answer is bad and the next older one good; on n commits at most log2(n)+1 tests are made. |
| `Repository.BisectLine` | broccolidb/core/repository.ts:2074-2103 | On a history: refuses exactly when the good commit is not in it, and otherwise searches the range down to it. |
| `Repository.Repository.Bisect` | broccolidb/core/repository.ts:2066-2103 | Refuses exactly unknown refs and ranges without the good commit, and otherwise gives the answer of the range search. |
| `Repository.BoundaryIsFirstBad` | broccolidb/core/repository.ts:2066-2103 | If goodness is monotone along the range, the answer is the first bad commit: everything newer is bad, everything older good. |
| `Repository.NextInLineIsParent` | broccolidb/core/repository.ts:2066-2103 | The next older commit of the range is the parent, so the boundary lies between a commit and its parent. |
| `Repository.Repository.MarkReachable` | broccolidb/core/repository.ts:1743-1761 | Marks a head and its ancestors up to marked ones, marks only live commits with their roots and what is seen from them, and leaves the marked set closed under parents. |
| `Repository.Repository.MarkAll` | broccolidb/core/repository.ts:1677-1699 | From all heads, exactly the live commits are marked. |
| `Repository.Repository.VaporizeBranches` | broccolidb/core/repository.ts:1654-1674 | Exactly the ephemeral branches older than an hour go, and they are counted. |
| `Repository.Repository.MarkAndPrune` | broccolidb/core/repository.ts:1677-1741 | Exactly the commits not reachable from a ref or either side of the reflog go; counts are exact; every surviving root stays, and only trees seen from one. |
| `Repository.PruneOutcome` | broccolidb/core/repository.ts:1701-1739 | Pruning everything unmarked leaves exactly the live commits, their roots, and the trees seen from them, all of these when no walk is too long. |
| `Repository.MarkedTreesAreSeen` | broccolidb/core/repository.ts:1743-1777 | The marked directories are seen from surviving roots, and are all that are seen when no walk is too long. |
| `Repository.Repository.Gc` | broccolidb/core/repository.ts:1648-1741 | The tables become the collected ones with exact counts. Every surviving root stays; the trees that stay are seen from one within 101 levels, and all that are seen stay when no walk is longer. |
| `Repository.Repository.GcExactly` | broccolidb/core/repository.ts:1648-1741 | Where every surviving root reads right and none is deeper than 101 levels, exactly the live trees stay and the repository stays valid. |
| `Repository.GcTwice` | broccolidb/core/repository.ts:1648-1741 | A second collection at the same time prunes no commit, no tree and no branch, as long as no walk from a surviving root is too long. |
| `Repository.GcAgain` | broccolidb/core/repository.ts:1648-1741 | Collecting tables that are collected already changes nothing and reports zeros. |
| `Repository.UnreachedTreeIsDeleted` | broccolidb/core/repository.ts:1648-1741 | Collection deletes every directory that is not seen from a surviving root within 101 levels, so also one that an operation has written and not committed. |
| `Repository.DeepTreeIsDeleted` | broccolidb/core/repository.ts:1763-1777 | When a nest of more than 101 levels is the only surviving root, collection deletes its innermost directory, which is live. |
| `TaskMutex.TailResolved` | broccolidb/core/mutex.ts:14-28 | The promise a request awaits has settled if and only if every earlier request for its key is released, timed out or not. |
| `TaskMutex.RunGood` | broccolidb/core/mutex.ts:9-46 | Every run keeps the chain intact and the running bodies exclusive. |
| `TaskMutex.MutualExclusion` | broccolidb/core/mutex.ts:9-46 | In every run, with timeouts at any point, at most one body per key is running. |
| `TaskMutex.ArrivalOrder` | broccolidb/core/mutex.ts:9-46 | Bodies of one key begin in the order in which the requests arrived. |
| `TaskMutex.OldestCanStart` | broccolidb/core/mutex.ts:34-38 | The oldest unreleased request of a key is running or can start, so no key gets stuck. |
| `TaskMutex.CanStartExactlyWhen` | broccolidb/core/mutex.ts:14-38 | A waiter can start if and only if every earlier request of its key is released. |
| `TaskMutex.NextCanStart` | broccolidb/core/mutex.ts:39-45 | When the oldest unreleased request leaves, the next one that waits on its key can start. |
| `TaskMutex.StepsMean` | broccolidb/core/mutex.ts:9-46 | A request waits at the end, a started one runs and is listed last, a leaving one is released, as expired if it was still waiting; no other request changes, and an impossible step changes nothing. |
| `TaskMutex.StartsOnlyInTurn` | broccolidb/core/mutex.ts:34-38 | A waiter, even behind timed-out ones, can start only once all earlier requests of its key are released. |
| `TaskMutex.CleanupNeverFires` | broccolidb/core/mutex.ts:41-43 | The map never holds a request's own promise, so the entry is never deleted. |
| `TaskMutex.TaskMutex.Acquire` | broccolidb/core/mutex.ts:14-28 | Queues the request behind the tail of its key and keeps the invariant. |
| `TaskMutex.TaskMutex.Begin` | broccolidb/core/mutex.ts:36-39 | Starts the body of a request whose tail has settled and keeps the invariant. |
| `TaskMutex.TaskMutex.Release` | broccolidb/core/mutex.ts:39-45 | Settles the request's promise after its body or its timeout, leaves the lock map alone, and keeps the invariant. |
| `FileTree.FileTree.RunLocked` | broccolidb/core/file-tree.ts:91-127 | One operation under the lock either commits its edited tree on the head it found, keeping all old trees, or fails and changes no table row of branches and commits. |
| `FileTree.FileTree.Rebuild` | broccolidb/core/file-tree.ts:460-522 | The tree part of each operation stores the new root, and fails exactly when the file to move or copy, or the tree to delete from, is not there. |
| `FileTree.FileTree.LookUp` | broccolidb/core/file-tree.ts:501-512 | Finds in the flattened tree the file at a path of at most 101 components, and nothing else. |
| `FileTree.ApplyIsApplyFlat` | broccolidb/core/file-tree.ts:91-127 | Every operation, at paths of any depth, changes the flat tree of the branch as its name says and in no other place. |
| `FileTree.OperationMeans` | broccolidb/core/file-tree.ts:91-127 | Path by path and at any depth: the destination shows the file, all that is comparable with it, or with the source of a move, shows nothing, and every other path what it did; it throws if and only if there is no tree to delete from or no file within 101 components to move or copy. |
| `FileTree.WriteOnTreelessHead` | broccolidb/core/file-tree.ts:91-127 | On a head without a tree hash a write leaves a branch that shows the written file and no other. |
| `FileTree.SoftResetForgets` | broccolidb/core/repository.ts:1549-1626 | After a soft reset the head has no tree hash, so the next write drops every other file. |
| `FileTree.PlainCommitForgets` | broccolidb/core/repository.ts:565-685 | After a commit that names no tree the next write drops every other file. |
| `FileHistory.OnlyOneInside` | broccolidb/core/file-tree.ts:91-127 | While a call holds the branch lock, every other call has not begun or is over. |
| `FileHistory.RunKeeps` | broccolidb/core/file-tree.ts:91-127 | Every interleaving of requests, timeouts, reads, builds and commits keeps what each call knows in agreement with the present head. |
| `FileHistory.NoLostUpdates` | broccolidb/core/file-tree.ts:91-127 | In every interleaving, history gains exactly one commit per successful call, each on the previous head, in lock order, and the head's tree is the original with those edits applied in that order. |
| `FileHistory.OldestGetsThrough` | broccolidb/core/file-tree.ts:91-127 | From every reachable state the oldest call that has not timed out finishes by its own steps and releases the lock. It commits if and only if its operation applies to the tree of the head and its id is free, and the head then shows the operation; no other call is touched. |
| `FileHistory.NextCanEnter` | broccolidb/core/mutex.ts:39-45 | After that the next waiting call can enter. |
| `FileHistory.NoCallIsStuck` | broccolidb/core/file-tree.ts:91-127 | After every run the remaining calls can finish, each by its own steps in turn, and then every call that did not time out has committed or failed. |
| `FileHistory.LogIsCommittedCalls` | broccolidb/core/file-tree.ts:91-127 | In every run each committed call is logged exactly once under its own operation and id, nothing else is, and calls that asked earlier are logged earlier. |
| `FileHistory.HistoryListsLog` | broccolidb/core/repository.ts:952-963 | The history of the branch lists the logged commits, newest first, and then what it listed before. |
| `FileHistory.CommitStepIsCommit` | broccolidb/core/repository.ts:565-685 | The commit step succeeds exactly when the commit of the repository does, and makes the same nodes and the same head. |
| `FileHistory.AskMeans` | broccolidb/core/file-tree.ts:91-91 | A request with a proper path is queued last and changes nothing else. |
| `FileHistory.TimeOutMeans` | broccolidb/core/mutex.ts:20-33 | A call that waits for the lock can always time out; its request is released and nothing else changes. |
| `FileHistory.ReplayIsReplayFlat` | broccolidb/core/file-tree.ts:91-127 | The files on the branch are the original files with the logged operations applied one after the other. |
| `FileHistory.OtherKeyIsOverwritten` | broccolidb/core/repository.ts:468-470 | A commit under the other lock key between build and commit, with or without a tree hash, becomes the parent, yet the branch shows the tree built before it. |
| `FileHistory.EditHides` | broccolidb/core/file-tree.ts:133-163 | Editing one path makes two trees show the same files exactly when they differed at most at comparable paths. |
| `FileHistory.CommitReplaces` | broccolidb/core/file-tree.ts:91-127 | The tree a call has built replaces the one that is there when it commits, harmlessly if and only if that one did not disturb the operation. |
| `FileHistory.RenameKept` | broccolidb/core/file-tree.ts:460-482 | For a move: the same source file, and no difference off its two paths. |
| `FileHistory.CopyKept` | broccolidb/core/file-tree.ts:501-522 | For a copy: the same source file, and no difference off its destination. |
| `FileHistory.OverwrittenExactlyWhen` | broccolidb/core/repository.ts:468-470 | For all five operations, and any number of other commits at any point from the read of the root to the commit: their files are kept if and only if they left alone what the operation reads and changed no file off the edited paths. |
| `FileHistory.UpdateLostAcrossKeys` | broccolidb/core/repository.ts:468-470 | A concrete loss: the file the other commit added is missing after the write that overlapped it. |
| `FileHistory.ReadyToCommitIsReachable` | broccolidb/core/file-tree.ts:91-127 | The state of that loss is reached from an empty branch. |
| `LRUCache.StepIncluded` | broccolidb/core/lru-cache.ts:14-47 | Each get, set and delete keeps a smaller cache a subsequence of a larger one, both within capacity. |
| `LRUCache.GetMeans` | broccolidb/core/lru-cache.ts:14-25 | A get finds exactly the keys that are there; a hit moves that entry to the recent end and keeps the order of the others, a miss changes nothing. |
| `LRUCache.SetMeans` | broccolidb/core/lru-cache.ts:27-39 | A set puts the pair at the recent end; a present key leaves its old place, and otherwise a full cache loses its least recently used entry and no other. |
| `LRUCache.HitsSnoc` | broccolidb/core/lru-cache.ts:14-25 | The hits of a run grow by one with a get whose key is there, and with nothing else. |
| `LRUCache.LargerCacheIsBetter` | broccolidb/core/lru-cache.ts:14-47 | Over every run the smaller cache's recency list is a subsequence of the larger one's, and the larger one has at least as many hits. |
| `LRUCache.LRUCache.Lookup` | broccolidb/core/lru-cache.ts:14-25 | Returns the stored value and moves it to the recent end, counting a hit, or changes only the miss count. |
| `LRUCache.LRUCache.Put` | broccolidb/core/lru-cache.ts:27-39 | Puts the pair at the recent end, replacing its key or, when full, evicting the oldest; never exceeds capacity and keeps keys distinct. |
| `LRUCache.LRUCache.Delete` | broccolidb/core/lru-cache.ts:45-47 | Removes the key and tells whether it was there; the order of the others stays. |
| `LRUCache.Create` | broccolidb/core/lru-cache.ts:8-12 | A cache is made exactly for a positive capacity, and is empty. |
| `ActionExecutor.RunGood` | broccolidb/core/executor.ts:74-107 | Every run keeps the active count equal to the running tasks and the queue in arrival order. |
| `ActionExecutor.NoLostWakeups` | broccolidb/core/executor.ts:74-107 | In every run, while a task waits, active and woken tasks number at least ten, and tasks are woken in the order in which they queued. |
| `ActionExecutor.LimitExceeded` | broccolidb/core/executor.ts:86-104 | From any full limiter with a waiter, an arrival between a wake-up and the resumption makes eleven tasks active. |
| `ActionExecutor.LimitExceededFromIdle` | broccolidb/core/executor.ts:74-107 | From the idle limiter a run of arrivals, one end and one resumption reaches eleven active tasks. |
| `ActionExecutor.WithinLimitStep` | broccolidb/core/executor.ts:74-107 | Active plus woken tasks stay within ten at a step if and only if it is no arrival that takes a promised slot. |
| `ActionExecutor.LimitBrokenExactlyWhen` | broccolidb/core/executor.ts:74-107 | Resumptions can push the active count past ten after a step if and only if the step was such an arrival. |
| `ActionExecutor.LimitKept` | broccolidb/core/executor.ts:74-107 | A run without such arrivals never has more than ten active tasks. |
| `ActionExecutor.Execute` | broccolidb/core/executor.ts:31-70 | Calls the operation at most the given number of times, again only after retryable failures, reports the last outcome, and waits the backoff times 2^(calls-1)-1 in all. |
| `ActionExecutor.BackoffBound` | broccolidb/core/executor.ts:42-68 | The total wait is at most the backoff times 2^(retries-1)-1. |
| `ActionExecutor.ActionExecutor.Begin` | broccolidb/core/executor.ts:74-89 | Admits below the limit and queues otherwise; the other groups are untouched. |
| `ActionExecutor.ActionExecutor.Continue` | broccolidb/core/executor.ts:86-89 | A woken task becomes active; the other groups are untouched. |
| `ActionExecutor.ActionExecutor.End` | broccolidb/core/executor.ts:93-106 | Frees the slot and wakes the task that has waited longest, if any; the other groups are untouched. |
| `UnifiedDiff.Locate` | lib/agent/native_mutation.py:116-132 | The drift loop finds the place that the search function describes. |
| `UnifiedDiff.PlaceIsNearest` | lib/agent/native_mutation.py:116-132 | If the old lines occur within 100 lines of the expected place, the hunk goes to the nearest occurrence, the earlier one at equal distance. |
| `UnifiedDiff.PlaceWithoutMatch` | lib/agent/native_mutation.py:116-134 | If they do not occur there, the hunk is spliced in at the expected place regardless. |
| `UnifiedDiff.TakeApart` | lib/agent/native_mutation.py:102-114 | The line loop splits a hunk into its old side and its new side. |
| `UnifiedDiff.SidesFollowLines` | lib/agent/native_mutation.py:102-114 | The sides of two line lists one after the other are their sides one after the other. |
| `UnifiedDiff.SidesOfLine` | lib/agent/native_mutation.py:104-114 | A context line stands on both sides, a deleted one on the old side only, an inserted one on the new side only. |
| `UnifiedDiff.OldSidePositions` | lib/agent/native_mutation.py:102-114 | The old side is the texts of all lines that are not inserted, at strictly ascending positions. |
| `UnifiedDiff.NewSidePositions` | lib/agent/native_mutation.py:102-114 | The new side is the texts of all lines that are not deleted, at strictly ascending positions. |
| `UnifiedDiff.SpliceMeans` | lib/agent/native_mutation.py:134-134 | Assigning to a slice replaces the lines between its bounds; bounds past the end mean the end, negative ones count from the end and stop at the start. |
| `UnifiedDiff.ReplacedOne` | lib/agent/native_mutation.py:134-135 | One edit that fits replaces its old lines where they stand and leaves all lines around them alone. |
| `UnifiedDiff.ApplyUnifiedDiff` | lib/agent/native_mutation.py:98-137 | The offset-tracking loop applies the hunks in order to the lines rewritten so far. |
| `UnifiedDiff.PiecesApplied` | lib/agent/native_mutation.py:98-137 | With the front already rewritten and the offset its growth, the loop rewrites the rest of a text whose hunks stand where their headers say, inserting one line early where the old side is empty. |
| `UnifiedDiff.ExpectedPlaces` | lib/agent/native_mutation.py:101-101 | With right headers the applier expects a hunk where the format puts it, or one line early when its old side is empty. |
| `UnifiedDiff.ApplyEarly` | lib/agent/native_mutation.py:116-134 | A hunk with an empty old side goes in before the last line of the text in front of it, or at the top if there is none. |
| `UnifiedDiff.InsertEarlyExactly` | lib/agent/native_mutation.py:134-135 | An early insertion gives the right text exactly on a right front whose last line is all that it inserts. |
| `UnifiedDiff.AppliedExactly` | lib/agent/native_mutation.py:98-137 | A front that has gone wrong never becomes right again, so the result is right only if no hunk did harm. |
| `UnifiedDiff.ApplyIsReplacement` | lib/agent/native_mutation.py:98-137 | For every diff of the original with right headers, the loop replaces all old sides at once if and only if every hunk with an empty old side stands at the top or repeats the line before it. |
| `UnifiedDiff.FlipSides` | lib/agent/native_mutation.py:102-114 | Turning deletions into insertions and back exchanges the two sides of a hunk. |
| `UnifiedDiff.ReverseFits` | lib/agent/native_mutation.py:98-137 | Swapping the header ranges and the line kinds gives a diff of the result that stands for going back to the original. |
| `UnifiedDiff.ReverseRestores` | lib/agent/native_mutation.py:98-137 | When both sides of every hunk have lines, applying a diff and then its reverse restores the original. |
| `UnifiedDiff.ReverseRestoresExactlyWhen` | lib/agent/native_mutation.py:98-137 | On the result of any diff, the applier goes back to the original if and only if the reversed diff has no harmful hunk there. |
| `UnifiedDiff.OldSidesAreHarmless` | lib/agent/native_mutation.py:98-137 | Hunks that all have an old side, as hunks with context do, are harmless. |
| `UnifiedDiff.InsertionGoesInEarly` | lib/agent/native_mutation.py:101-101 | The smallest wrong case: inserting after the first of two lines puts the line first, and so does reversing a deletion. |
| `CoherenceTokens.RevisionStep` | lib/agent/native_mutation.py:705-744 | Only a recorded patch raises the workspace revision, and by exactly one. |
| `CoherenceTokens.ValidateMeans` | lib/agent/native_mutation.py:433-555 | The checks pass if and only if the token is the task's own, unexpired, at the present verify revision, the expected revision is the present one, and every anchored file on disk has its anchored hash. |
| `CoherenceTokens.IssueMeans` | lib/agent/native_mutation.py:339-393 | After issuing, the task has a token at the present revisions, good for 300000 ms. Every existing file given or tracked is anchored in it and tracked at its present hash; its other anchors, the other tokens and the disk stay. |
| `CoherenceTokens.RefreshMeans` | lib/agent/native_mutation.py:395-431 | Every token gets the present revisions; of the given files, or of the tracked ones when none is given, existing ones are anchored at their present hash and missing ones dropped; the rest stays. |
| `CoherenceTokens.ReadMeans` | lib/agent/native_mutation.py:746-764 | A tracked read of an existing file tracks it and anchors it in its reader's token, and changes nothing else. |
| `CoherenceTokens.RecordMeans` | lib/agent/native_mutation.py:705-744 | A recorded patch names a real change of an existing file; it writes and tracks the new content and anchors it in every token, and no other anchor changes. |
| `CoherenceTokens.VerifyMeans` | lib/agent/native_mutation.py:655-703 | A passing verify raises the verify revision by one and changes nothing else; a failing one changes nothing. |
| `CoherenceTokens.PatchMeans` | lib/agent/native_mutation.py:557-653 | Each outcome of a patch has exactly its own cause, and only a recorded one changes anything. |
| `CoherenceTokens.AcceptedPatchSawEverything` | lib/agent/native_mutation.py:584-648 | If a task's patch is accepted with the revision shown at an earlier step, no patch was recorded since, and every anchored file still on disk is as last anchored. |
| `CoherenceTokens.ReceiptsChain` | lib/agent/native_mutation.py:622-644 | Each recorded patch starts from the revision at which the previous one ended. |
| `CoherenceTokens.NextGood` | lib/agent/native_mutation.py:345-371 | Every operation and outside edit keeps the token table as described. |
| `CoherenceTokens.RunGood` | lib/agent/native_mutation.py:345-371 | In every run token ids are exactly 1 to n, no task has two tokens, and no token is ahead of the state's revisions. |
| `CoherenceTokens.AnchorStays` | lib/agent/native_mutation.py:377-421 | An anchor changes only by a refresh, a renewal or read of its own task, or a recorded patch of the file. |
| `CoherenceTokens.OutsideEditIsCaught` | lib/agent/native_mutation.py:531-553 | If an anchored file was changed outside the manager and not anchored again, no patch with that token is accepted. |
| `CoherenceTokens.EditAfterIssueIsCaught` | lib/agent/native_mutation.py:531-553 | If a file given or tracked when a task was issued a token is on disk with another hash, and its anchor was not set again in between, no patch of the task is accepted, whatever token it presents. |
| `CoherenceTokens.TaskStays` | lib/agent/native_mutation.py:345-371 | In every run a token stays and keeps its task. |
| `CoherenceTokens.DoesNotTouch` | lib/agent/native_mutation.py:395-421 | Verifies, outside edits, unrecorded patches, patches of other files, reads of other files or by other tasks, and tokens issued to other tasks leave an anchor alone. |
| `CoherenceTokens.VerifyMakesStale` | lib/agent/native_mutation.py:683-689 | After a passing verify a token stays stale until it is issued again or refreshed. |
| `CoherenceTokens.VerifyInvalidates` | lib/agent/native_mutation.py:516-528 | A token older than a passing verify is rejected, whatever it is presented with, until then. |
| `NativeMutation.NativeMutationManager.FindToken` | lib/agent/native_mutation.py:346-350 | The search over tokens finds the task's token exactly when there is one. |
| `NativeMutation.NativeMutationManager.AnchorPaths` | lib/agent/native_mutation.py:377-385 | All existing paths are anchored at their present hash in both maps, in any order; missing ones keep what they had. |
| `NativeMutation.NativeMutationManager.ReanchorPaths` | lib/agent/native_mutation.py:403-421 | Existing paths get their present hash and missing ones are dropped. |
| `NativeMutation.NativeMutationManager.IssueCoherenceToken` | lib/agent/native_mutation.py:339-393 | Issues or renews the task's single token at the present revisions, shows the present revision, and keeps the token table. |
| `NativeMutation.NativeMutationManager.GetStatus` | lib/agent/native_mutation.py:244-299 | Shows the present revision, exactly the tracked files whose hash on disk differs, and whether anything drifted; issues a token exactly when a task is named. |
| `NativeMutation.NativeMutationManager.ChangedPaths` | lib/agent/native_mutation.py:531-536 | The loop finds exactly the anchored files that are on disk with another hash. |
| `NativeMutation.NativeMutationManager.RefreshAnchor` | lib/agent/native_mutation.py:395-431 | Brings every token and the tracked hashes up to date and keeps the token table. |
| `NativeMutation.NativeMutationManager.RenewTokens` | lib/agent/native_mutation.py:412-421 | Every token gets the present revisions and refreshed anchors. |
| `NativeMutation.NativeMutationManager.SetAnchor` | lib/agent/native_mutation.py:739-744 | Sets one path's anchor in the tokens of one task or of all, and changes no other anchor. |
| `NativeMutation.NativeMutationManager.AutoTrackFileRead` | lib/agent/native_mutation.py:746-764 | A tracked read anchors an existing file in its reader's token and keeps the token table. |
| `NativeMutation.NativeMutationManager.ApplyVerify` | lib/agent/native_mutation.py:655-703 | A passing verify raises the verify revision by one, a failing one changes nothing. |
| `NativeMutation.NativeMutationManager.ValidateCoherence` | lib/agent/native_mutation.py:433-555 | Reports the first failing check in the order of the code, and changes nothing. |
| `NativeMutation.NativeMutationManager.ApplyPatch` | lib/agent/native_mutation.py:557-653 | Writes the file and the receipt exactly when the patch is recorded; a missing file, a rejection, a call without a patch or an unchanged content leaves disk and state alone. |
| `NativeMutation.NativeMutationManager.RecordMutationReceipt` | lib/agent/native_mutation.py:705-744 | Raises the revision and anchors the new content in every token, keeping the token table. |

## Left out

- Repository.Repository.Gc: which of the seen trees stay is stated exactly when no walk is longer than 101 levels; beyond that what the walk misses depends on the order of the visits, which the code does not fix.
- TreeStorage.TreeStore.GetTree: returns a copy of the entries, where the code hands out the cached object; `TreeCache.CachedTreeStore.GetTree` models that.
- TreeStorage.TreeStore.WriteHierarchy: edits that copy, where the code edits the cached object; `TreeCache.CachedTreeStore.WriteHierarchy` models that.
- FileHistory.NoLostUpdates: trees are values there, and so are they in `FileHistory.ReplayIsReplayFlat`; over the tree cache it holds as long as the calls are safe in the sense of `CachedFileTree.RunCalls`, and fails on the inputs of `TreeCache.NextWriteCommitsIt` and `TreeCache.TwoWritesOnOneRoot`.
- FileTree.FileTree.Rebuild: works on directories as values; `CachedFileTree.RunSafely` does the same over the cache.
- TreeStorage.TreeStore.MergeTrees: reads every directory as stored; `CachedMerge.MergeTrees` models the merge over the cache.
- CachedMerge.MergeTrees: the source has to read right, since otherwise the recursion of the code need not end; base and target may read as anything, but pairs of directories are then not described.
- TreeCache.CachedTreeStore.WriteHierarchy: no directory is evicted from the cache, and no directory or object comes twice on the way, which is so whenever the way reads right and for every path of one component.
- FileTree.FileTree.RunLocked: on a head with no tree hash but flat columns, a move or copy reports the file as missing, where the code finds it in the flat columns.
- Repository.Repository.Reset: the flat tree that a soft reset stores on its node is not modelled.
- Repository.Repository.Stash: the stored data and flat tree are not modelled.
- Repository.Repository.Blame: what the flat columns of a commit without a root hash give is a parameter, and the cache of flattened trees by commit is not modelled.
- NativeMutation.NativeMutationManager.ApplyPatch: a patch is given by the hash of the content it makes, and equal hashes stand for equal contents; paths outside the workspace and I/O errors are not modelled.
- NativeMutation.NativeMutationManager.GetStatus: whether the git head moved is a parameter; branch and dirty files are not modelled.
- NativeMutation.NativeMutationManager.RecordMutationReceipt: the receipt files are not modelled.
- The cache's hit-rate report, `has` and `clear`: they are easy.
- SHA-256 is symbolic, and the hashes of files, directories and sub-repository ids are taken to differ from each other; the code compares entries by hash alone.
- The order of the conflict list of `mergeTrees`, which depends on promise timing: conflicts are a set.
- The node and ref caches: rows and refs are read from the tables. `tag` and `deleteTag` do not update the ref cache in the code.
- SQLite, transactions and `BufferedDbPool`: tables are maps and a transaction is one step. UUIDs are supplied by the caller, and a reused one is the duplicate-key error. Clocks are parameters.
- Path validation: paths come in canonical form, as component lists; `Paths` relates the two forms.
- `rebase`, `squash`, `revert`, `cherryPick`, `stashPop`, `recoverFile` and the flat commit path of `merge`: their commits store no tree hash or go to another head than intended, so the laws above do not apply to them.
- `calculateAffectedPaths` and `listDirectory`: both ask for a tree by a hash that is not one on ordinary inputs.
- File claims, ignore rules, hooks, telemetry, audits, reasoning, embeddings and mailboxes: plumbing or easy invariants.
- `ActionExecutor`'s per-call timeout and error texts: a call ends as success, retryable or fatal.
- The JSON form of the state file.
- Lexing of diff text: the model starts from the parsed hunks, with an empty body line as an empty context line.
- The MCP server, command line, installers, prompts and bridges.
