/**
 * The coherence-token protocol of the mutation manager: a workspace revision that every recorded patch
 * raises, a verify revision that every passing verify raises, and one token per task that remembers
 * the revisions and the hashes of the files its owner has seen.
 */
module CoherenceTokens {
  import opened Wrappers

  type TaskId = string
  type RelPath = string
  /** The empty hash stands for a file that is missing or unreadable. */
  type FileHash = string
  /** The token `coh_n` has the number `n`. */
  type TokenId = nat

  datatype Token = Token(task: TaskId, revision: nat, verifyRevision: nat, anchors: map<RelPath, FileHash>, expiresAt: int)

  datatype MutationState = MutationState(
    revision: nat,
    verifyRevision: nat,
    tracked: map<RelPath, FileHash>,
    tokens: map<TokenId, Token>)

  const INITIAL := MutationState(1, 0, map[], map[])

  type Disk = map<RelPath, FileHash>

  function HashOf(disk: Disk, path: RelPath): FileHash {
    if path in disk then disk[path] else ""
  }

  const LIFETIME: int := 5 * 60 * 1000

  // ---------------------------------------------------------------- anchoring

  /** The paths that exist on disk are set to their present hash; the others keep what they had. */
  function Anchor(m: map<RelPath, FileHash>, paths: set<RelPath>, disk: Disk): map<RelPath, FileHash> {
    m + map p | p in paths && p != "" && HashOf(disk, p) != "" :: HashOf(disk, p)
  }

  /** The paths that exist are set to their present hash, the others are dropped. */
  function Reanchor(m: map<RelPath, FileHash>, paths: set<RelPath>, disk: Disk): map<RelPath, FileHash> {
    (m - paths) + map p | p in paths && HashOf(disk, p) != "" :: HashOf(disk, p)
  }

  // ---------------------------------------------------------------- the operations

  ghost predicate HasToken(s: MutationState, task: TaskId, id: TokenId) {
    id in s.tokens && s.tokens[id].task == task
  }

  /** The token a task holds, or the next free number. */
  ghost function TokenFor(s: MutationState, task: TaskId): TokenId {
    if exists id :: HasToken(s, task, id) then (var id: TokenId :| HasToken(s, task, id); id)
    else |s.tokens| + 1
  }

  /** Issues or renews the token of a task and anchors the tracked files and the given ones. */
  ghost function Issue(s: MutationState, disk: Disk, now: int, task: TaskId, paths: set<RelPath>): MutationState {
    var id := TokenFor(s, task);
    var all := paths + s.tracked.Keys;
    var anchors := if id in s.tokens then s.tokens[id].anchors else map[];
    s.(tokens := s.tokens[id := Token(task, s.revision, s.verifyRevision, Anchor(anchors, all, disk), now + LIFETIME)],
       tracked := Anchor(s.tracked, all, disk))
  }

  function Renew(s: MutationState, t: Token, paths: set<RelPath>, disk: Disk): Token {
    t.(revision := s.revision, verifyRevision := s.verifyRevision, anchors := Reanchor(t.anchors, paths, disk))
  }

  function RenewAll(s: MutationState, paths: set<RelPath>, disk: Disk): map<TokenId, Token> {
    map id | id in s.tokens :: Renew(s, s.tokens[id], paths, disk)
  }

  /** Refreshes every token; without paths, all tracked files are refreshed. */
  function Refresh(s: MutationState, disk: Disk, given: set<RelPath>): MutationState {
    var paths := if given == {} then s.tracked.Keys else given;
    s.(tracked := Reanchor(s.tracked, paths, disk),
       tokens := RenewAll(s, paths, disk))
  }

  /** A tracked read anchors the file in the tokens of its reader. */
  function TrackRead(s: MutationState, disk: Disk, task: TaskId, path: RelPath): MutationState {
    if task == "" || HashOf(disk, path) == "" then s
    else s.(tracked := s.tracked[path := HashOf(disk, path)],
            tokens := map id | id in s.tokens ::
              if s.tokens[id].task == task then s.tokens[id].(anchors := s.tokens[id].anchors[path := HashOf(disk, path)])
              else s.tokens[id])
  }

  function Verify(s: MutationState, passed: bool): MutationState {
    if passed then s.(verifyRevision := s.verifyRevision + 1) else s
  }

  /** A recorded patch raises the revision and anchors the new content in every token. */
  function Record(s: MutationState, path: RelPath, post: FileHash): MutationState {
    s.(revision := s.revision + 1,
       tracked := s.tracked[path := post],
       tokens := map id | id in s.tokens :: s.tokens[id].(anchors := s.tokens[id].anchors[path := post]))
  }

  datatype Rejection =
    | TokenRequired
    | TokenUnknown
    | TokenExpired
    | TaskMismatch
    | WorkspaceChanged
    | VerifyRevisionStale
    | CoherenceMismatch

  /** The anchored files that are on disk with another hash. */
  function Changed(anchors: map<RelPath, FileHash>, disk: Disk): set<RelPath> {
    set p | p in anchors && anchors[p] != "" && HashOf(disk, p) != "" && anchors[p] != HashOf(disk, p)
  }

  /** The checks in the order in which they are made; `None` accepts. */
  function Validate(s: MutationState, disk: Disk, now: int, task: TaskId, id: Option<TokenId>, expected: Option<int>):
    Option<Rejection>
  {
    if id.None? || expected.None? then Some(TokenRequired)
    else if id.value !in s.tokens then Some(TokenUnknown)
    else
      var t := s.tokens[id.value];
      if now > t.expiresAt then Some(TokenExpired)
      else if t.task != task then Some(TaskMismatch)
      else if expected.value != s.revision then Some(WorkspaceChanged)
      else if t.verifyRevision != s.verifyRevision then Some(VerifyRevisionStale)
      else if Changed(t.anchors, disk) != {} then Some(CoherenceMismatch)
      else None
  }

  datatype PatchOutcome =
    | FileMissing
    | Rejected(why: Rejection)
    | PatchInvalid
    | Unchanged
    | Recorded(before: nat, after: nat)

  /**
   * The patch of one file, given the hash of what the diff or the replacement makes of it; there is none
   * when neither is given.
   */
  function Patch(s: MutationState, disk: Disk, now: int, path: RelPath, post: Option<FileHash>, task: TaskId,
                 id: Option<TokenId>, expected: Option<int>): PatchOutcome
  {
    if HashOf(disk, path) == "" then FileMissing
    else
      var check := if task == "" then None else Validate(s, disk, now, task, id, expected);
      if check.Some? then Rejected(check.value)
      else if post.None? then PatchInvalid
      else if post.value == HashOf(disk, path) then Unchanged
      else Recorded(s.revision, s.revision + 1)
  }

  // ---------------------------------------------------------------- runs

  datatype Workspace = Workspace(state: MutationState, disk: Disk)

  /** The operations, and edits made outside the manager; the clock is the number given with each. */
  datatype Action =
    | DoIssue(now: int, task: TaskId, paths: set<RelPath>)
    | DoRefresh(paths: set<RelPath>)
    | DoRead(task: TaskId, path: RelPath)
    | DoVerify(passed: bool)
    | DoPatch(now: int, path: RelPath, post: Option<FileHash>, task: TaskId, id: Option<TokenId>, expected: Option<int>)
    | OutsideEdit(path: RelPath, hash: FileHash)

  function OutcomeOf(w: Workspace, a: Action): PatchOutcome
    requires a.DoPatch?
  {
    Patch(w.state, w.disk, a.now, a.path, a.post, a.task, a.id, a.expected)
  }

  /** The action is a patch that is recorded. */
  predicate Records(w: Workspace, a: Action) {
    a.DoPatch? && OutcomeOf(w, a).Recorded?
  }

  ghost function Next(w: Workspace, a: Action): Workspace {
    match a
    case DoIssue(now, task, paths) => w.(state := Issue(w.state, w.disk, now, task, paths))
    case DoRefresh(paths) => w.(state := Refresh(w.state, w.disk, paths))
    case DoRead(task, path) => w.(state := TrackRead(w.state, w.disk, task, path))
    case DoVerify(passed) => w.(state := Verify(w.state, passed))
    case DoPatch(_, path, post, _, _, _) =>
      if Records(w, a) then Workspace(Record(w.state, path, post.value), w.disk[path := post.value]) else w
    case OutsideEdit(path, hash) => w.(disk := if hash == "" then w.disk - {path} else w.disk[path := hash])
  }

  /** Step `k` of a run leads from the `k`-th workspace to the next. */
  ghost predicate StepAt(run: seq<Workspace>, actions: seq<Action>, k: nat)
    requires k < |actions| && |run| == |actions| + 1
  {
    run[k + 1] == Next(run[k], actions[k])
  }

  ghost predicate IsRun(run: seq<Workspace>, actions: seq<Action>) {
    |run| == |actions| + 1 && forall k | 0 <= k < |actions| :: StepAt(run, actions, k)
  }

  // ---------------------------------------------------------------- revisions

  /** Only a recorded patch raises the revision, and by one. */
  lemma RevisionStep(run: seq<Workspace>, actions: seq<Action>, k: nat)
    requires IsRun(run, actions) && k < |actions|
    ensures run[k + 1].state.revision == run[k].state.revision + if Records(run[k], actions[k]) then 1 else 0
  {
    assert StepAt(run, actions, k);
  }

  lemma {:induction false} RevisionGrows(run: seq<Workspace>, actions: seq<Action>, i: nat, j: nat)
    requires IsRun(run, actions) && i <= j <= |actions|
    ensures run[i].state.revision <= run[j].state.revision
    decreases j
  {
    if i < j {
      RevisionGrows(run, actions, i, j - 1);
      RevisionStep(run, actions, j - 1);
    }
  }

  /** Between equal revisions no patch was recorded. */
  lemma NoneRecorded(run: seq<Workspace>, actions: seq<Action>, i: nat, k: nat, j: nat)
    requires IsRun(run, actions) && i <= k < j <= |actions|
    requires run[i].state.revision == run[j].state.revision
    ensures !Records(run[k], actions[k])
  {
    RevisionGrows(run, actions, i, k);
    RevisionStep(run, actions, k);
    RevisionGrows(run, actions, k + 1, j);
  }

  /** The anchored files of the token are missing from disk or unchanged. */
  ghost predicate AnchorsHold(w: Workspace, id: TokenId)
    requires id in w.state.tokens
  {
    forall p | p in w.state.tokens[id].anchors && HashOf(w.disk, p) != "" ::
      w.state.tokens[id].anchors[p] == "" || w.state.tokens[id].anchors[p] == HashOf(w.disk, p)
  }

  /** Exactly when a claimed patch passes: what the checks mean together. */
  lemma ValidateMeans(w: Workspace, now: int, task: TaskId, id: Option<TokenId>, expected: Option<int>)
    ensures Validate(w.state, w.disk, now, task, id, expected).None? <==>
              && id.Some? && expected == Some(w.state.revision)
              && HasToken(w.state, task, id.value)
              && now <= w.state.tokens[id.value].expiresAt
              && w.state.tokens[id.value].verifyRevision == w.state.verifyRevision
              && AnchorsHold(w, id.value)
  {
    if id.Some? && id.value in w.state.tokens {
      var t := w.state.tokens[id.value];
      assert AnchorsHold(w, id.value) <==> Changed(t.anchors, w.disk) == {} by {
        if AnchorsHold(w, id.value) {
          assert forall p :: p !in Changed(t.anchors, w.disk);
        } else {
          var p :| p in t.anchors && HashOf(w.disk, p) != "" && t.anchors[p] != "" && t.anchors[p] != HashOf(w.disk, p);
          assert p in Changed(t.anchors, w.disk);
        }
      }
    }
  }

  /**
   * No update is lost through the manager: if a task's patch at step `j` is accepted with the revision
   * that was shown at step `i`, then no patch at all was recorded in between, and every file that the
   * token anchors is gone or has the anchored hash.
   */
  lemma AcceptedPatchSawEverything(run: seq<Workspace>, actions: seq<Action>, i: nat, j: nat)
    requires IsRun(run, actions) && i <= j < |actions| && actions[j].DoPatch? && actions[j].task != ""
    requires actions[j].expected == Some(run[i].state.revision)
    requires OutcomeOf(run[j], actions[j]).Recorded? || OutcomeOf(run[j], actions[j]).Unchanged?
    ensures forall k | i <= k < j :: !Records(run[k], actions[k])
    ensures actions[j].id.Some? && HasToken(run[j].state, actions[j].task, actions[j].id.value)
    ensures AnchorsHold(run[j], actions[j].id.value)
  {
    var a := actions[j];
    ValidateMeans(run[j], a.now, a.task, a.id, a.expected);
    forall k | i <= k < j ensures !Records(run[k], actions[k]) {
      NoneRecorded(run, actions, i, k, j);
    }
  }

  /** Receipts chain: each recorded patch starts from the revision at which the one before it ended. */
  lemma {:induction false} ReceiptsChain(run: seq<Workspace>, actions: seq<Action>, i: nat, j: nat)
    requires IsRun(run, actions) && i < j < |actions|
    requires Records(run[i], actions[i]) && Records(run[j], actions[j])
    requires forall k | i < k < j :: !Records(run[k], actions[k])
    ensures OutcomeOf(run[j], actions[j]).before == OutcomeOf(run[i], actions[i]).after
  {
    RevisionStep(run, actions, i);
    RevisionStays(run, actions, i + 1, j);
  }

  lemma {:induction false} RevisionStays(run: seq<Workspace>, actions: seq<Action>, i: nat, j: nat)
    requires IsRun(run, actions) && i <= j <= |actions|
    requires forall k | i <= k < j :: !Records(run[k], actions[k])
    ensures run[i].state.revision == run[j].state.revision
    decreases j
  {
    if i < j {
      RevisionStays(run, actions, i, j - 1);
      RevisionStep(run, actions, j - 1);
    }
  }

  // ---------------------------------------------------------------- the token table

  /** Ids are exactly `coh_1` to `coh_n`, no task has two tokens, and no token is ahead of the state. */
  ghost predicate TokensGood(s: MutationState) {
    && Numbered(s.tokens.Keys)
    && (forall i, j | i in s.tokens && j in s.tokens && s.tokens[i].task == s.tokens[j].task :: i == j)
    && (forall id | id in s.tokens :: s.tokens[id].revision <= s.revision && s.tokens[id].verifyRevision <= s.verifyRevision)
  }

  ghost predicate Numbered(ids: set<TokenId>) {
    forall id :: id in ids <==> 1 <= id <= |ids|
  }

  lemma NextNumber(ids: set<TokenId>)
    requires Numbered(ids)
    ensures |ids| + 1 !in ids && Numbered(ids + {|ids| + 1})
  {
    assert |ids + {|ids| + 1}| == |ids| + 1;
  }

  lemma SameKeysGood(s: MutationState, s': MutationState)
    requires TokensGood(s) && s'.tokens.Keys == s.tokens.Keys
    requires s.revision <= s'.revision && s.verifyRevision <= s'.verifyRevision
    requires forall id | id in s.tokens ::
               && s'.tokens[id].task == s.tokens[id].task
               && s'.tokens[id].revision <= s'.revision && s'.tokens[id].verifyRevision <= s'.verifyRevision
    ensures TokensGood(s')
  {
  }

  lemma PutTokenGood(s: MutationState, s': MutationState, task: TaskId, t: Token)
    requires TokensGood(s) && t.task == task && t.revision == s.revision && t.verifyRevision == s.verifyRevision
    requires s'.tokens == s.tokens[TokenFor(s, task) := t]
    requires s'.revision == s.revision && s'.verifyRevision == s.verifyRevision
    ensures TokensGood(s') && HasToken(s', task, TokenFor(s, task))
  {
    var id := TokenFor(s, task);
    if exists i :: HasToken(s, task, i) {
      assert HasToken(s, task, id);
      SameKeysGood(s, s');
    } else {
      assert forall i | i in s.tokens :: s.tokens[i].task != task by {
        forall i | i in s.tokens ensures s.tokens[i].task != task { assert !HasToken(s, task, i); }
      }
      NewTokenGood(s, s', t);
    }
  }

  lemma NewTokenGood(s: MutationState, s': MutationState, t: Token)
    requires TokensGood(s) && forall i | i in s.tokens :: s.tokens[i].task != t.task
    requires s'.tokens == s.tokens[|s.tokens| + 1 := t]
    requires s'.revision == s.revision >= t.revision && s'.verifyRevision == s.verifyRevision >= t.verifyRevision
    ensures TokensGood(s')
  {
    var id := |s.tokens| + 1;
    assert id !in s.tokens && Numbered(s'.tokens.Keys) by {
      NextNumber(s.tokens.Keys);
      assert |s.tokens.Keys| == |s.tokens|;
      assert s'.tokens.Keys == s.tokens.Keys + {id};
    }
  }

  lemma NextGood(w: Workspace, a: Action)
    requires TokensGood(w.state)
    ensures TokensGood(Next(w, a).state)
  {
    var s, s' := w.state, Next(w, a).state;
    if a.DoIssue? {
      PutTokenGood(s, s', a.task, s'.tokens[TokenFor(s, a.task)]);
    } else {
      SameKeysGood(s, s');
    }
  }

  /** In every run the token table is as it should be. */
  lemma {:induction false} RunGood(run: seq<Workspace>, actions: seq<Action>, n: nat)
    requires IsRun(run, actions) && TokensGood(run[0].state) && n <= |actions|
    ensures TokensGood(run[n].state)
    decreases n
  {
    if n > 0 {
      RunGood(run, actions, n - 1);
      StepGood(run, actions, n - 1);
    }
  }

  lemma StepGood(run: seq<Workspace>, actions: seq<Action>, k: nat)
    requires IsRun(run, actions) && k < |actions| && TokensGood(run[k].state)
    ensures TokensGood(run[k + 1].state)
  {
    var w := Next(run[k], actions[k]);
    NextGood(run[k], actions[k]);
    assert StepAt(run, actions, k);
    assert run[k + 1] == w;
  }

  // ---------------------------------------------------------------- anchors

  /** The action may set the anchor of the path in the token. */
  predicate Touches(w: Workspace, a: Action, id: TokenId, path: RelPath)
    requires id in w.state.tokens
  {
    match a
    case DoIssue(_, task, _) => w.state.tokens[id].task == task
    case DoRefresh(_) => true
    case DoRead(task, p) => w.state.tokens[id].task == task && p == path
    case DoVerify(_) => false
    case DoPatch(_, p, _, _, _, _) => Records(w, a) && p == path
    case OutsideEdit(_, _) => false
  }

  /** What leaves an anchor alone: verifications, outside edits, and whatever another task does to other files. */
  lemma DoesNotTouch(w: Workspace, a: Action, id: TokenId, path: RelPath)
    requires id in w.state.tokens
    ensures a.DoVerify? || a.OutsideEdit? ==> !Touches(w, a, id, path)
    ensures a.DoIssue? && a.task != w.state.tokens[id].task ==> !Touches(w, a, id, path)
    ensures a.DoRead? && (a.task != w.state.tokens[id].task || a.path != path) ==> !Touches(w, a, id, path)
    ensures a.DoPatch? && (a.path != path || !Records(w, a)) ==> !Touches(w, a, id, path)
  {
  }

  /** The token anchors the path with the hash. */
  predicate Anchored(w: Workspace, id: TokenId, path: RelPath, hash: FileHash) {
    id in w.state.tokens && path in w.state.tokens[id].anchors && w.state.tokens[id].anchors[path] == hash
  }

  /** An action that does not touch an anchor leaves it alone. */
  lemma AnchorStays(w: Workspace, a: Action, id: TokenId, path: RelPath, hash: FileHash)
    requires TokensGood(w.state) && Anchored(w, id, path, hash) && !Touches(w, a, id, path)
    ensures Anchored(Next(w, a), id, path, hash)
  {
    if a.DoIssue? && exists i :: HasToken(w.state, a.task, i) {
      assert HasToken(w.state, a.task, TokenFor(w.state, a.task));
    }
  }

  lemma {:induction false} AnchorPersists(run: seq<Workspace>, actions: seq<Action>, i: nat, j: nat, id: TokenId,
                                          path: RelPath, hash: FileHash)
    requires IsRun(run, actions) && TokensGood(run[0].state) && i <= j <= |actions|
    requires Anchored(run[i], id, path, hash)
    requires forall k | i <= k < j && id in run[k].state.tokens :: !Touches(run[k], actions[k], id, path)
    ensures Anchored(run[j], id, path, hash)
    decreases j
  {
    if i < j {
      AnchorPersists(run, actions, i, j - 1, id, path, hash);
      RunGood(run, actions, j - 1);
      AnchorStays(run[j - 1], actions[j - 1], id, path, hash);
      assert StepAt(run, actions, j - 1);
    }
  }

  /**
   * Outside edits are caught: if a token anchored a file at step `i`, the anchor was not set again, and
   * the file is on disk with another hash at step `j`, then no patch with that token is accepted there.
   */
  lemma OutsideEditIsCaught(run: seq<Workspace>, actions: seq<Action>, i: nat, j: nat, id: TokenId,
                            path: RelPath, hash: FileHash)
    requires IsRun(run, actions) && TokensGood(run[0].state) && i <= j < |actions|
    requires Anchored(run[i], id, path, hash)
    requires forall k | i <= k < j && id in run[k].state.tokens :: !Touches(run[k], actions[k], id, path)
    requires actions[j].DoPatch? && actions[j].task != "" && actions[j].id == Some(id)
    requires hash != "" && HashOf(run[j].disk, path) != "" && HashOf(run[j].disk, path) != hash
    ensures OutcomeOf(run[j], actions[j]).FileMissing? || OutcomeOf(run[j], actions[j]).Rejected?
  {
    AnchorPersists(run, actions, i, j, id, path, hash);
    var a := actions[j];
    ValidateMeans(run[j], a.now, a.task, a.id, a.expected);
  }

  // ---------------------------------------------------------------- what each operation anchors

  /** The files that issuing a token anchors: the given and the tracked ones that exist. */
  predicate Shown(w: Workspace, paths: set<RelPath>, path: RelPath) {
    (path in paths || path in w.state.tracked) && path != "" && HashOf(w.disk, path) != ""
  }

  /**
   * After issuing, the task has a token at the present revisions, good for five minutes.  It anchors every
   * existing file that was given or tracked at its present hash, and so do the tracked files; its other
   * anchors, the other tokens and the disk stay as they were.
   */
  lemma IssueMeans(w: Workspace, now: int, task: TaskId, paths: set<RelPath>) returns (id: TokenId)
    requires TokensGood(w.state)
    ensures var w' := Next(w, DoIssue(now, task, paths));
            && HasToken(w'.state, task, id)
            && w'.state.tokens[id].revision == w'.state.revision == w.state.revision
            && w'.state.tokens[id].verifyRevision == w'.state.verifyRevision == w.state.verifyRevision
            && w'.state.tokens[id].expiresAt == now + 300000
            && w'.disk == w.disk
    ensures var w' := Next(w, DoIssue(now, task, paths));
            && (forall p | Shown(w, paths, p) ::
                  Anchored(w', id, p, HashOf(w.disk, p)) && p in w'.state.tracked && w'.state.tracked[p] == HashOf(w.disk, p))
            && (forall p | !Shown(w, paths, p) ::
                  && (p in w'.state.tokens[id].anchors <==> id in w.state.tokens && p in w.state.tokens[id].anchors)
                  && (p in w'.state.tokens[id].anchors ==> w'.state.tokens[id].anchors[p] == w.state.tokens[id].anchors[p])
                  && (p in w'.state.tracked <==> p in w.state.tracked)
                  && (p in w.state.tracked ==> w'.state.tracked[p] == w.state.tracked[p]))
    ensures var w' := Next(w, DoIssue(now, task, paths));
            && (id in w.state.tokens ==> w.state.tokens[id].task == task)
            && w'.state.tokens.Keys == w.state.tokens.Keys + {id}
            && forall i | i in w.state.tokens && i != id :: w'.state.tokens[i] == w.state.tokens[i]
  {
    id := TokenFor(w.state, task);
    if exists i :: HasToken(w.state, task, i) {
      assert HasToken(w.state, task, id);
    } else {
      NextNumber(w.state.tokens.Keys);
    }
  }

  /** A refresh shows every token the present state: existing files at their present hash, missing ones dropped. */
  lemma RefreshMeans(w: Workspace, given: set<RelPath>, id: TokenId, p: RelPath)
    requires id in w.state.tokens
    ensures var w', t := Next(w, DoRefresh(given)), w.state.tokens[id];
            && w'.state.tokens.Keys == w.state.tokens.Keys && w'.state.revision == w.state.revision && w'.disk == w.disk
            && w'.state.tokens[id].(anchors := t.anchors)
               == t.(revision := w.state.revision, verifyRevision := w.state.verifyRevision)
            && (if p in given || (given == {} && p in w.state.tracked) then
                  if HashOf(w.disk, p) != "" then Anchored(w', id, p, HashOf(w.disk, p)) && w'.state.tracked[p := HashOf(w.disk, p)] == w'.state.tracked
                  else p !in w'.state.tokens[id].anchors && p !in w'.state.tracked
                else
                  && (p in w'.state.tokens[id].anchors <==> p in t.anchors)
                  && (p in t.anchors ==> w'.state.tokens[id].anchors[p] == t.anchors[p])
                  && (p in w'.state.tracked <==> p in w.state.tracked)
                  && (p in w.state.tracked ==> w'.state.tracked[p] == w.state.tracked[p]))
  {
  }

  /** A tracked read of an existing file anchors it, and nothing else, in the tokens of its reader. */
  lemma ReadMeans(w: Workspace, task: TaskId, path: RelPath, id: TokenId)
    requires id in w.state.tokens
    ensures var w', t := Next(w, DoRead(task, path)), w.state.tokens[id];
            && w'.state.tokens.Keys == w.state.tokens.Keys && w'.state.revision == w.state.revision && w'.disk == w.disk
            && (if task != "" && HashOf(w.disk, path) != "" then
                  && path in w'.state.tracked && w'.state.tracked[path] == HashOf(w.disk, path)
                  && (t.task == task ==> Anchored(w', id, path, HashOf(w.disk, path)))
                  && (t.task != task ==> w'.state.tokens[id] == t)
                  && w'.state.tokens[id].anchors - {path} == t.anchors - {path}
                  && w'.state.tracked - {path} == w.state.tracked - {path}
                else w' == w)
  {
  }

  /** A recorded patch anchors its result, and nothing else, in every token, and writes it to disk. */
  lemma RecordMeans(w: Workspace, a: Action, id: TokenId)
    requires Records(w, a) && id in w.state.tokens
    ensures a.post.Some? && HashOf(w.disk, a.path) != "" && a.post.value != HashOf(w.disk, a.path)
    ensures var w', t := Next(w, a), w.state.tokens[id];
            && Anchored(w', id, a.path, a.post.value) && w'.state.tokens[id].anchors - {a.path} == t.anchors - {a.path}
            && w'.state.tokens[id].(anchors := t.anchors) == t
            && w'.state.tracked == w.state.tracked[a.path := a.post.value] && w'.disk == w.disk[a.path := a.post.value]
            && w'.state.tokens.Keys == w.state.tokens.Keys
  {
  }

  /** A passing verify raises the verify revision by one; nothing else changes, and a failing one changes nothing. */
  lemma VerifyMeans(w: Workspace, passed: bool)
    ensures var w' := Next(w, DoVerify(passed));
            && w'.disk == w.disk && w'.state.verifyRevision == w.state.verifyRevision + (if passed then 1 else 0)
            && w'.state.(verifyRevision := w.state.verifyRevision) == w.state
  {
  }

  /** The outcomes of a patch: each names its reason, and a recorded one its two revisions. */
  lemma PatchMeans(w: Workspace, a: Action)
    requires a.DoPatch?
    ensures var o := OutcomeOf(w, a);
            && (o.FileMissing? <==> HashOf(w.disk, a.path) == "")
            && (o.Rejected? <==> !o.FileMissing? && a.task != "" && Validate(w.state, w.disk, a.now, a.task, a.id, a.expected).Some?)
            && (o.Rejected? ==> Validate(w.state, w.disk, a.now, a.task, a.id, a.expected) == Some(o.why))
            && (o.PatchInvalid? <==> !o.FileMissing? && !o.Rejected? && a.post.None?)
            && (o.Unchanged? <==> !o.FileMissing? && !o.Rejected? && a.post == Some(HashOf(w.disk, a.path)))
            && (o.Recorded? ==> o == Recorded(w.state.revision, w.state.revision + 1))
            && (!o.Recorded? ==> Next(w, a) == w)
  {
  }

  /** A token keeps its task. */
  lemma {:induction false} TaskStays(run: seq<Workspace>, actions: seq<Action>, i: nat, j: nat, task: TaskId, id: TokenId)
    requires IsRun(run, actions) && TokensGood(run[0].state) && i <= j <= |actions| && HasToken(run[i].state, task, id)
    ensures HasToken(run[j].state, task, id)
    decreases j
  {
    if i < j {
      TaskStays(run, actions, i, j - 1, task, id);
      RunGood(run, actions, j - 1);
      assert StepAt(run, actions, j - 1);
      TaskStaysOnce(run[j - 1], actions[j - 1], task, id);
    }
  }

  lemma TaskStaysOnce(w: Workspace, a: Action, task: TaskId, id: TokenId)
    requires TokensGood(w.state) && HasToken(w.state, task, id)
    ensures HasToken(Next(w, a).state, task, id)
  {
    if a.DoIssue? && exists i :: HasToken(w.state, a.task, i) {
      assert HasToken(w.state, a.task, TokenFor(w.state, a.task));
    }
  }

  /**
   * From issuing to patching: issuing gives the task a token, and if a file was given or tracked then, is
   * changed outside, and its anchor in this token is not set again, then no patch of the task is accepted
   * while the file is on disk like that, whatever token it presents.
   */
  lemma EditAfterIssueIsCaught(run: seq<Workspace>, actions: seq<Action>, i: nat, j: nat, path: RelPath) returns (id: TokenId)
    requires IsRun(run, actions) && TokensGood(run[0].state) && i < j < |actions|
    requires actions[i].DoIssue? && Shown(run[i], actions[i].paths, path)
    requires actions[j].DoPatch? && actions[j].task == actions[i].task != ""
    requires HashOf(run[j].disk, path) != "" && HashOf(run[j].disk, path) != HashOf(run[i].disk, path)
    ensures HasToken(run[i + 1].state, actions[i].task, id)
    ensures Untouched(run, actions, i, j, id, path) ==>
              OutcomeOf(run[j], actions[j]).FileMissing? || OutcomeOf(run[j], actions[j]).Rejected?
  {
    id := IssuedAnchor(run, actions, i, path);
    if Untouched(run, actions, i, j, id, path) {
      AnchorPersists(run, actions, i + 1, j, id, path, HashOf(run[i].disk, path));
      TaskStays(run, actions, i + 1, j, actions[i].task, id);
      RunGood(run, actions, j);
      WrongAnchorRejects(run[j], actions[j], id, path, HashOf(run[i].disk, path));
    }
  }

  /** Between the two steps nothing sets the anchor of the path in the token. */
  predicate Untouched(run: seq<Workspace>, actions: seq<Action>, i: nat, j: nat, id: TokenId, path: RelPath)
    requires i < j < |actions| <= |run|
  {
    forall k | i < k < j && id in run[k].state.tokens :: !Touches(run[k], actions[k], id, path)
  }

  lemma IssuedAnchor(run: seq<Workspace>, actions: seq<Action>, i: nat, path: RelPath) returns (id: TokenId)
    requires IsRun(run, actions) && TokensGood(run[0].state) && i < |actions|
    requires actions[i].DoIssue? && Shown(run[i], actions[i].paths, path)
    ensures HasToken(run[i + 1].state, actions[i].task, id)
    ensures Anchored(run[i + 1], id, path, HashOf(run[i].disk, path)) && HashOf(run[i].disk, path) != ""
  {
    RunGood(run, actions, i);
    id := IssueMeans(run[i], actions[i].now, actions[i].task, actions[i].paths);
    assert StepAt(run, actions, i);
  }

  lemma WrongAnchorRejects(w: Workspace, a: Action, id: TokenId, path: RelPath, hash: FileHash)
    requires TokensGood(w.state) && a.DoPatch? && a.task != "" && HasToken(w.state, a.task, id)
    requires Anchored(w, id, path, hash) && hash != "" && HashOf(w.disk, path) != "" && HashOf(w.disk, path) != hash
    ensures OutcomeOf(w, a).FileMissing? || OutcomeOf(w, a).Rejected?
  {
    ValidateMeans(w, a.now, a.task, a.id, a.expected);
  }

  // ---------------------------------------------------------------- verification

  /** The action gives the token the present verify revision. */
  predicate Reissues(w: Workspace, a: Action, id: TokenId)
    requires id in w.state.tokens
  {
    a.DoRefresh? || (a.DoIssue? && a.task == w.state.tokens[id].task)
  }

  ghost predicate Stale(w: Workspace, id: TokenId) {
    id in w.state.tokens && w.state.tokens[id].verifyRevision < w.state.verifyRevision
  }

  lemma StaleStays(w: Workspace, a: Action, id: TokenId)
    requires TokensGood(w.state) && Stale(w, id) && !Reissues(w, a, id)
    ensures Stale(Next(w, a), id)
  {
    if a.DoIssue? && exists i :: HasToken(w.state, a.task, i) {
      assert HasToken(w.state, a.task, TokenFor(w.state, a.task));
    }
  }

  lemma StaleStep(run: seq<Workspace>, actions: seq<Action>, k: nat, id: TokenId)
    requires IsRun(run, actions) && TokensGood(run[0].state) && k < |actions| && id in run[k].state.tokens
    requires actions[k] == DoVerify(true) || (Stale(run[k], id) && !Reissues(run[k], actions[k], id))
    ensures Stale(run[k + 1], id)
  {
    RunGood(run, actions, k);
    assert StepAt(run, actions, k);
    if actions[k] != DoVerify(true) {
      StaleStays(run[k], actions[k], id);
    }
  }

  /** After a passing verify a token stays stale until it is issued again or refreshed. */
  lemma {:induction false} VerifyMakesStale(run: seq<Workspace>, actions: seq<Action>, i: nat, j: nat, id: TokenId)
    requires IsRun(run, actions) && TokensGood(run[0].state) && i < j <= |actions|
    requires actions[i] == DoVerify(true) && id in run[i].state.tokens
    requires forall k | i < k < j && id in run[k].state.tokens :: !Reissues(run[k], actions[k], id)
    ensures Stale(run[j], id)
    decreases j
  {
    if i < j - 1 {
      VerifyMakesStale(run, actions, i, j - 1, id);
    }
    StaleStep(run, actions, j - 1, id);
  }

  /** So no token that is older than a passing verify is accepted, whatever it is presented with. */
  lemma VerifyInvalidates(run: seq<Workspace>, actions: seq<Action>, i: nat, j: nat, id: TokenId,
                          now: int, task: TaskId, expected: Option<int>)
    requires IsRun(run, actions) && TokensGood(run[0].state) && i < j <= |actions|
    requires actions[i] == DoVerify(true) && id in run[i].state.tokens
    requires forall k | i < k < j && id in run[k].state.tokens :: !Reissues(run[k], actions[k], id)
    ensures Validate(run[j].state, run[j].disk, now, task, Some(id), expected).Some?
  {
    VerifyMakesStale(run, actions, i, j, id);
    ValidateMeans(run[j], now, task, Some(id), expected);
  }
}
