/**
 * The mutation manager over its state file and the files on disk.  Every operation reads the state,
 * changes the copy, and writes it back; each is proved to carry out its function in `CoherenceTokens`.
 */
module NativeMutation {
  import opened Wrappers
  import opened CoherenceTokens

  lemma AnchorOneMore(m: map<RelPath, FileHash>, done: set<RelPath>, p: RelPath, disk: Disk)
    requires p !in done
    ensures Anchor(m, done + {p}, disk)
         == if p != "" && HashOf(disk, p) != "" then Anchor(m, done, disk)[p := HashOf(disk, p)] else Anchor(m, done, disk)
  {
  }

  lemma ReanchorOneMore(m: map<RelPath, FileHash>, done: set<RelPath>, p: RelPath, disk: Disk)
    requires p !in done
    ensures Reanchor(m, done + {p}, disk)
         == if HashOf(disk, p) != "" then Reanchor(m, done, disk)[p := HashOf(disk, p)] else Reanchor(m, done, disk) - {p}
  {
  }

  class NativeMutationManager {
    var state: MutationState
    var disk: Disk

    ghost predicate Valid()
      reads this
    {
      TokensGood(state)
    }

    constructor (disk: Disk)
      ensures Valid() && state == INITIAL && this.disk == disk
    {
      state := INITIAL;
      this.disk := disk;
    }

    // -------------------------------------------------------------- loops over tokens and paths

    /** The token of a task, if it has one. */
    method FindToken(task: TaskId) returns (id: Option<TokenId>)
      requires Valid()
      ensures id.Some? ==> HasToken(state, task, id.value) && id.value == TokenFor(state, task)
      ensures id.None? ==> TokenFor(state, task) == |state.tokens| + 1 && forall i :: !HasToken(state, task, i)
    {
      var pending := state.tokens.Keys;
      while pending != {}
        invariant pending <= state.tokens.Keys
        invariant forall i | i in state.tokens && i !in pending :: state.tokens[i].task != task
        decreases pending
      {
        var tid :| tid in pending;
        pending := pending - {tid};
        if state.tokens[tid].task == task {
          assert HasToken(state, task, tid);
          return Some(tid);
        }
      }
      id := None;
    }

    /** Anchors every existing path in both maps. */
    method AnchorPaths(tracked: map<RelPath, FileHash>, anchors: map<RelPath, FileHash>, paths: set<RelPath>)
      returns (newTracked: map<RelPath, FileHash>, newAnchors: map<RelPath, FileHash>)
      ensures newTracked == Anchor(tracked, paths, disk) && newAnchors == Anchor(anchors, paths, disk)
    {
      newTracked, newAnchors := tracked, anchors;
      var pending := paths;
      assert Anchor(tracked, {}, disk) == tracked && Anchor(anchors, {}, disk) == anchors;
      assert paths - pending == {};
      while pending != {}
        invariant pending <= paths
        invariant newTracked == Anchor(tracked, paths - pending, disk)
        invariant newAnchors == Anchor(anchors, paths - pending, disk)
        decreases pending
      {
        var p :| p in pending;
        AnchorOneMore(tracked, paths - pending, p, disk);
        AnchorOneMore(anchors, paths - pending, p, disk);
        assert paths - (pending - {p}) == (paths - pending) + {p};
        pending := pending - {p};
        if p == "" {
          continue;
        }
        var currentHash := HashOf(disk, p);
        if currentHash != "" {
          newAnchors := newAnchors[p := currentHash];
          newTracked := newTracked[p := currentHash];
        }
      }
      assert paths - pending == paths;
    }

    /** Refreshes one map of hashes, dropping the paths that are gone. */
    method ReanchorPaths(m: map<RelPath, FileHash>, paths: set<RelPath>) returns (r: map<RelPath, FileHash>)
      ensures r == Reanchor(m, paths, disk)
    {
      r := m;
      var pending := paths;
      assert Reanchor(m, {}, disk) == m;
      assert paths - pending == {};
      while pending != {}
        invariant pending <= paths
        invariant r == Reanchor(m, paths - pending, disk)
        decreases pending
      {
        var p :| p in pending;
        ReanchorOneMore(m, paths - pending, p, disk);
        assert paths - (pending - {p}) == (paths - pending) + {p};
        pending := pending - {p};
        var currentHash := HashOf(disk, p);
        if currentHash != "" {
          r := r[p := currentHash];
        } else {
          r := r - {p};
        }
      }
      assert paths - pending == paths;
    }

    // -------------------------------------------------------------- the operations

    method IssueCoherenceToken(now: int, task: TaskId, paths: set<RelPath>) returns (id: TokenId, shown: nat)
      requires Valid()
      modifies this`state
      ensures Valid() && state == Issue(old(state), disk, now, task, paths)
      ensures HasToken(state, task, id) && shown == state.revision == old(state).revision
    {
      NextGood(Workspace(state, disk), DoIssue(now, task, paths));
      var existing := FindToken(task);
      id := if existing.Some? then existing.value else |state.tokens| + 1;
      assert id == TokenFor(state, task);
      assert existing.None? ==> id !in state.tokens;
      var anchors := if existing.Some? then state.tokens[id].anchors else map[];
      var tracked: map<RelPath, FileHash>;
      tracked, anchors := AnchorPaths(state.tracked, anchors, paths + state.tracked.Keys);
      var token := Token(task, state.revision, state.verifyRevision, anchors, now + LIFETIME);
      state := state.(tokens := state.tokens[id := token], tracked := tracked);
      shown := state.revision;
    }

    /**
     * Status shows the workspace revision and the tracked files that drifted and, given a task, issues its
     * token.  `headMoved` tells whether the git head is another than the anchored one.
     */
    method GetStatus(now: int, task: TaskId, headMoved: bool)
      returns (shown: nat, affected: set<RelPath>, drift: bool, id: Option<TokenId>)
      requires Valid()
      modifies this`state
      ensures Valid() && shown == old(state).revision
      ensures affected == Changed(old(state).tracked, disk) && drift == (headMoved || affected != {})
      ensures state == if task == "" then old(state) else Issue(old(state), disk, now, task, {})
      ensures id.Some? <==> task != ""
      ensures id.Some? ==> HasToken(state, task, id.value)
    {
      shown := state.revision;
      affected := ChangedPaths(state.tracked);
      drift := headMoved || affected != {};
      id := None;
      if task != "" {
        var tid, _ := IssueCoherenceToken(now, task, {});
        id := Some(tid);
      }
    }

    /** The paths that are on disk with another hash than the given one. */
    method ChangedPaths(anchors: map<RelPath, FileHash>) returns (changedPaths: set<RelPath>)
      ensures changedPaths == Changed(anchors, disk)
    {
      changedPaths := {};
      var pending := anchors.Keys;
      while pending != {}
        invariant pending <= anchors.Keys
        invariant changedPaths == set p | p in Changed(anchors, disk) && p !in pending
        decreases pending
      {
        var p :| p in pending;
        pending := pending - {p};
        var currentHash := HashOf(disk, p);
        if anchors[p] != "" && currentHash != "" && anchors[p] != currentHash {
          changedPaths := changedPaths + {p};
        }
      }
      assert changedPaths == Changed(anchors, disk);
    }

    method RefreshAnchor(given: set<RelPath>)
      requires Valid()
      modifies this`state
      ensures Valid() && state == Refresh(old(state), disk, given)
    {
      RefreshGood(state, disk, given);
      var paths := if given == {} then state.tracked.Keys else given;
      var tracked := ReanchorPaths(state.tracked, paths);
      var tokens := RenewTokens(paths);
      assert Refresh(state, disk, given) == state.(tracked := tracked, tokens := tokens);
      state := state.(tracked := tracked, tokens := tokens);
    }

    /** Brings every token to the present revisions and refreshes its anchors. */
    method RenewTokens(paths: set<RelPath>) returns (tokens: map<TokenId, Token>)
      ensures tokens == RenewAll(state, paths, disk)
    {
      tokens := state.tokens;
      var pending := state.tokens.Keys;
      while pending != {}
        invariant pending <= state.tokens.Keys && tokens.Keys == state.tokens.Keys
        invariant forall i | i in pending :: tokens[i] == state.tokens[i]
        invariant forall i | i in tokens && i !in pending :: tokens[i] == Renew(state, state.tokens[i], paths, disk)
        decreases pending
      {
        var tid :| tid in pending;
        pending := pending - {tid};
        var anchors := ReanchorPaths(tokens[tid].anchors, paths);
        var token := tokens[tid].(revision := state.revision, verifyRevision := state.verifyRevision, anchors := anchors);
        assert token == Renew(state, state.tokens[tid], paths, disk);
        tokens := tokens[tid := token];
      }
    }

    /** Sets the anchor of one path in the tokens of one task, or in all of them. */
    method SetAnchor(task: Option<TaskId>, path: RelPath, hash: FileHash) returns (tokens: map<TokenId, Token>)
      ensures tokens == map id | id in state.tokens ::
                          if task.None? || state.tokens[id].task == task.value
                          then state.tokens[id].(anchors := state.tokens[id].anchors[path := hash]) else state.tokens[id]
    {
      tokens := state.tokens;
      var pending := state.tokens.Keys;
      while pending != {}
        invariant pending <= state.tokens.Keys && tokens.Keys == state.tokens.Keys
        invariant forall i | i in tokens ::
                    tokens[i] == if i !in pending && (task.None? || state.tokens[i].task == task.value)
                                 then state.tokens[i].(anchors := state.tokens[i].anchors[path := hash]) else state.tokens[i]
        decreases pending
      {
        var tid :| tid in pending;
        pending := pending - {tid};
        if task.None? || tokens[tid].task == task.value {
          tokens := tokens[tid := tokens[tid].(anchors := tokens[tid].anchors[path := hash])];
        }
      }
    }

    method AutoTrackFileRead(task: TaskId, path: RelPath)
      requires Valid()
      modifies this`state
      ensures Valid() && state == TrackRead(old(state), disk, task, path)
    {
      ReadGood(state, disk, task, path);
      if task == "" {
        return;
      }
      var currentHash := HashOf(disk, path);
      if currentHash == "" {
        return;
      }
      var tokens := SetAnchor(Some(task), path, currentHash);
      assert tokens == TrackRead(state, disk, task, path).tokens;
      state := state.(tracked := state.tracked[path := currentHash], tokens := tokens);
    }

    method ApplyVerify(passed: bool)
      requires Valid()
      modifies this`state
      ensures Valid() && state == Verify(old(state), passed)
    {
      if passed {
        state := state.(verifyRevision := state.verifyRevision + 1);
      }
    }

    method ValidateCoherence(now: int, task: TaskId, id: Option<TokenId>, expected: Option<int>)
      returns (r: Option<Rejection>)
      ensures r == Validate(state, disk, now, task, id, expected)
    {
      if id.None? || expected.None? { return Some(TokenRequired); }
      if id.value !in state.tokens { return Some(TokenUnknown); }
      var token := state.tokens[id.value];
      if now > token.expiresAt { return Some(TokenExpired); }
      if token.task != task { return Some(TaskMismatch); }
      if expected.value != state.revision { return Some(WorkspaceChanged); }
      if token.verifyRevision != state.verifyRevision { return Some(VerifyRevisionStale); }

      var changedPaths := ChangedPaths(token.anchors);
      r := if changedPaths != {} then Some(CoherenceMismatch) else None;
    }

    /** Applies a patch to one file; `post` is the hash of what the diff or the replacement makes of it. */
    method ApplyPatch(now: int, path: RelPath, post: Option<FileHash>, task: TaskId, id: Option<TokenId>, expected: Option<int>)
      returns (outcome: PatchOutcome)
      requires Valid() && post != Some("")
      modifies this
      ensures Valid()
      ensures outcome == Patch(old(state), old(disk), now, path, post, task, id, expected)
      ensures if outcome.Recorded? then state == Record(old(state), path, post.value) && disk == old(disk)[path := post.value]
              else state == old(state) && disk == old(disk)
    {
      if HashOf(disk, path) == "" {
        return FileMissing;
      }
      if task != "" {
        var check := ValidateCoherence(now, task, id, expected);
        if check.Some? {
          return Rejected(check.value);
        }
      }
      if post.None? {
        return PatchInvalid;
      }
      if post.value == HashOf(disk, path) {
        return Unchanged;
      }
      disk := disk[path := post.value];
      outcome := Recorded(state.revision, state.revision + 1);
      RecordMutationReceipt(path, post.value);
    }

    method RecordMutationReceipt(path: RelPath, post: FileHash)
      requires Valid()
      modifies this`state
      ensures Valid() && state == Record(old(state), path, post)
    {
      RecordGood(state, path, post);
      var tokens := SetAnchor(None, path, post);
      assert tokens == Record(state, path, post).tokens;
      state := state.(revision := state.revision + 1, tracked := state.tracked[path := post], tokens := tokens);
    }
  }

  lemma RecordGood(s: MutationState, path: RelPath, post: FileHash)
    requires TokensGood(s)
    ensures TokensGood(Record(s, path, post))
  {
    SameKeysGood(s, Record(s, path, post));
  }

  lemma ReadGood(s: MutationState, disk: Disk, task: TaskId, path: RelPath)
    requires TokensGood(s)
    ensures TokensGood(TrackRead(s, disk, task, path))
  {
    SameKeysGood(s, TrackRead(s, disk, task, path));
  }

  lemma RefreshGood(s: MutationState, disk: Disk, given: set<RelPath>)
    requires TokensGood(s)
    ensures TokensGood(Refresh(s, disk, given))
  {
    SameKeysGood(s, Refresh(s, disk, given));
  }
}
