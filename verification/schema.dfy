/** The entities of the agent workflow: projects and their settings, sessions with
    their scope and message log, file changes made of hunks, memory notes and the
    cached git state. Timestamps are opaque natural numbers; a record's key is
    kept by the store, not in the record. */
module Schema {
  import opened Wrappers

  /** Store key (the source uses random UUID strings; only freshness matters). */
  type Key = nat

  /** Project settings; every field is optional, as in the stored JSON. */
  datatype Settings = Settings(
    strictMode: Option<bool>,
    maxLines: Option<int>,
    maxFiles: Option<int>,
    forbiddenGlobs: Option<seq<string>>,
    styleFreeze: Option<bool>)

  /** Settings with no field set (`{}`). */
  const NoSettings := Settings(None, None, None, None, None)

  datatype Project = Project(
    name: string,
    repoUrl: Option<string>,
    defaultBranch: Option<string>,
    settings: Settings,
    createdAt: nat)

  /** The budget an intent asks for; the cost is a JSON number. */
  datatype Budget = Budget(maxTokens: int, maxCost: real)

  /** What a session may touch. `files` and `symbols` are always present; the
      other fields are missing from a scope built by approving a session that
      had none. */
  datatype Scope = Scope(
    goal: Option<string>,
    files: seq<string>,
    symbols: seq<string>,
    forbidden: Option<seq<string>>,
    budget: Option<Budget>)

  datatype Role = User | Assistant

  datatype Message = Message(role: Role, content: string, timestamp: nat)

  datatype Status = Active | PendingApproval | Completed | Failed

  datatype Session = Session(
    projectId: Key,
    prompt: string,
    messages: seq<Message>,
    scope: Option<Scope>,
    diffSummary: Option<string>,
    status: Status,
    createdAt: nat)

  datatype ChangeType = Create | Modify | Delete

  /** One contiguous region of a proposed change, approvable on its own. */
  datatype Hunk = Hunk(
    id: string,
    oldStart: int,
    oldLines: int,
    newStart: int,
    newLines: int,
    content: string,
    rationale: string,
    approved: bool)

  datatype FileChange = FileChange(
    sessionId: Key,
    filePath: string,
    changeType: ChangeType,
    hunks: seq<Hunk>,
    applied: bool,
    createdAt: nat)

  datatype MemoryNote = MemoryNote(
    projectId: Key,
    content: string,
    tags: seq<string>,
    links: seq<Key>,
    createdAt: nat)

  datatype GitState = GitState(
    branch: string,
    ahead: int,
    behind: int,
    lastCommit: Option<string>,
    updatedAt: nat)

  // ---------------------------------------------------------------------------
  // Partial updates (`{ ...existing, ...updates }`): a present field replaces the
  // stored one, an absent field leaves it alone.

  datatype SessionPatch = SessionPatch(
    status: Option<Status>,
    scope: Option<Scope>,
    diffSummary: Option<string>,
    messages: Option<seq<Message>>)

  const NoSessionChange := SessionPatch(None, None, None, None)

  function StatusOnly(s: Status): SessionPatch {
    NoSessionChange.(status := Some(s))
  }

  /** `{ ...existing, ...updates }` for a session: a field the update carries
      replaces the stored one; the owner, prompt and creation time stay. */
  function MergeSession(s: Session, p: SessionPatch): (r: Session)
    ensures r.projectId == s.projectId && r.prompt == s.prompt && r.createdAt == s.createdAt
    // a field the update leaves out keeps its value
    ensures p.status.None? ==> r.status == s.status
    ensures p.scope.None? ==> r.scope == s.scope
    ensures p.diffSummary.None? ==> r.diffSummary == s.diffSummary
    ensures p.messages.None? ==> r.messages == s.messages
    // a field the update sets takes the update's value
    ensures p.status.Some? ==> r.status == p.status.value
    ensures p.scope.Some? ==> r.scope == p.scope
    ensures p.diffSummary.Some? ==> r.diffSummary == p.diffSummary
    ensures p.messages.Some? ==> r.messages == p.messages.value
    ensures p == NoSessionChange ==> r == s
  {
    s.(status := p.status.GetOr(s.status),
       scope := if p.scope.Some? then p.scope else s.scope,
       diffSummary := if p.diffSummary.Some? then p.diffSummary else s.diffSummary,
       messages := p.messages.GetOr(s.messages))
  }

  /** `q` spread after `p`. */
  function ThenSession(p: SessionPatch, q: SessionPatch): SessionPatch {
    SessionPatch(
      if q.status.Some? then q.status else p.status,
      if q.scope.Some? then q.scope else p.scope,
      if q.diffSummary.Some? then q.diffSummary else p.diffSummary,
      if q.messages.Some? then q.messages else p.messages)
  }

  /** Merging is a right action: the empty patch changes nothing, a patch applied
      twice acts once, and two merges are one merge of the combined patch. */
  lemma SessionMergeLaws(s: Session, p: SessionPatch, q: SessionPatch)
    ensures MergeSession(s, NoSessionChange) == s
    ensures MergeSession(MergeSession(s, p), p) == MergeSession(s, p)
    ensures MergeSession(MergeSession(s, p), q) == MergeSession(s, ThenSession(p, q))
  {
  }

  datatype FileChangePatch = FileChangePatch(hunks: Option<seq<Hunk>>, applied: Option<bool>)

  const NoFileChangeChange := FileChangePatch(None, None)

  /** The spread merge for a file change: the session, path, change type and
      creation time stay. */
  function MergeFileChange(c: FileChange, p: FileChangePatch): (r: FileChange)
    ensures r.sessionId == c.sessionId && r.filePath == c.filePath
    ensures r.changeType == c.changeType && r.createdAt == c.createdAt
    ensures p.hunks.None? ==> r.hunks == c.hunks
    ensures p.applied.None? ==> r.applied == c.applied
    ensures p.hunks.Some? ==> r.hunks == p.hunks.value
    ensures p.applied.Some? ==> r.applied == p.applied.value
  {
    c.(hunks := p.hunks.GetOr(c.hunks), applied := p.applied.GetOr(c.applied))
  }

  /** `q` spread after `p`. */
  function ThenFileChange(p: FileChangePatch, q: FileChangePatch): FileChangePatch {
    FileChangePatch(if q.hunks.Some? then q.hunks else p.hunks,
                    if q.applied.Some? then q.applied else p.applied)
  }

  /** The file-change merge is a right action, as the session merge is. */
  lemma FileChangeMergeLaws(c: FileChange, p: FileChangePatch, q: FileChangePatch)
    ensures MergeFileChange(c, NoFileChangeChange) == c
    ensures MergeFileChange(MergeFileChange(c, p), p) == MergeFileChange(c, p)
    ensures MergeFileChange(MergeFileChange(c, p), q) == MergeFileChange(c, ThenFileChange(p, q))
  {
  }

  datatype ProjectPatch = ProjectPatch(
    name: Option<string>,
    repoUrl: Option<Option<string>>,
    defaultBranch: Option<Option<string>>,
    settings: Option<Settings>)

  const NoProjectChange := ProjectPatch(None, None, None, None)

  /** The spread merge for a project: the creation time stays. */
  function MergeProject(p: Project, u: ProjectPatch): (r: Project)
    ensures r.createdAt == p.createdAt
    ensures u.name.None? ==> r.name == p.name
    ensures u.repoUrl.None? ==> r.repoUrl == p.repoUrl
    ensures u.defaultBranch.None? ==> r.defaultBranch == p.defaultBranch
    ensures u.settings.None? ==> r.settings == p.settings
    ensures u.name.Some? ==> r.name == u.name.value
    ensures u.repoUrl.Some? ==> r.repoUrl == u.repoUrl.value
    ensures u.defaultBranch.Some? ==> r.defaultBranch == u.defaultBranch.value
    ensures u.settings.Some? ==> r.settings == u.settings.value
    ensures u == NoProjectChange ==> r == p
  {
    p.(name := u.name.GetOr(p.name),
       repoUrl := u.repoUrl.GetOr(p.repoUrl),
       defaultBranch := u.defaultBranch.GetOr(p.defaultBranch),
       settings := u.settings.GetOr(p.settings))
  }

  /** Merging the same project update twice is merging it once. */
  lemma ProjectMergeIdempotent(p: Project, u: ProjectPatch)
    ensures MergeProject(MergeProject(p, u), u) == MergeProject(p, u)
  {
  }

  datatype GitPatch = GitPatch(
    branch: Option<string>,
    ahead: Option<int>,
    behind: Option<int>,
    lastCommit: Option<Option<string>>)

  const NoGitChange := GitPatch(None, None, None, None)

  /** The merge `updateGitState` performs; `updatedAt` is always refreshed. */
  function MergeGit(g: GitState, u: GitPatch, now: nat): (r: GitState)
    ensures r.updatedAt == now
    ensures u.branch.None? ==> r.branch == g.branch
    ensures u.ahead.None? ==> r.ahead == g.ahead
    ensures u.behind.None? ==> r.behind == g.behind
    ensures u.lastCommit.None? ==> r.lastCommit == g.lastCommit
    ensures u.branch.Some? ==> r.branch == u.branch.value
    ensures u.ahead.Some? ==> r.ahead == u.ahead.value
    ensures u.behind.Some? ==> r.behind == u.behind.value
    ensures u.lastCommit.Some? ==> r.lastCommit == u.lastCommit.value
    ensures u == NoGitChange ==> r == g.(updatedAt := now)
  {
    GitState(u.branch.GetOr(g.branch), u.ahead.GetOr(g.ahead), u.behind.GetOr(g.behind),
             u.lastCommit.GetOr(g.lastCommit), now)
  }

  /** `v` spread after `u`. */
  function ThenGit(u: GitPatch, v: GitPatch): GitPatch {
    GitPatch(if v.branch.Some? then v.branch else u.branch,
             if v.ahead.Some? then v.ahead else u.ahead,
             if v.behind.Some? then v.behind else u.behind,
             if v.lastCommit.Some? then v.lastCommit else u.lastCommit)
  }

  /** Two git updates in a row are one update with the combined fields, stamped
      with the later time. */
  lemma GitMergeLaws(g: GitState, u: GitPatch, v: GitPatch, t1: nat, t2: nat)
    ensures MergeGit(MergeGit(g, u, t1), v, t2) == MergeGit(g, ThenGit(u, v), t2)
  {
  }
}
