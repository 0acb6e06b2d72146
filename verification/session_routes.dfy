/** The session handlers of the HTTP API (`/approve`, `/apply`, `/revert`) and
    project creation with its initial git state. Broadcasts over the web socket
    are not modelled. */
module SessionRoutes {
  import opened Wrappers
  import opened Schema
  import opened Storage
  import opened Patches
  import Agent

  /** The JSON answer of a handler. */
  datatype Response = Success | NotFound(error: string) | BadRequest(error: string)

  // ---------------------------------------------------------------------------
  // Approve

  /** The scope an approval builds: the stored scope (or none) with the added
      files and symbols appended; missing lists count as empty and nothing is
      de-duplicated. */
  function Widen(prior: Option<Scope>, addFiles: Option<seq<string>>, addSymbols: Option<seq<string>>): (r: Scope)
    ensures prior.Some? ==> r.goal == prior.value.goal && r.forbidden == prior.value.forbidden && r.budget == prior.value.budget
    ensures prior.None? ==> r.goal.None? && r.forbidden.None? && r.budget.None?
    ensures r.files == (if prior.Some? then prior.value.files else []) + addFiles.GetOr([])
    ensures r.symbols == (if prior.Some? then prior.value.symbols else []) + addSymbols.GetOr([])
  {
    var base := if prior.Some? then prior.value else Scope(None, [], [], None, None);
    base.(files := base.files + addFiles.GetOr([]), symbols := base.symbols + addSymbols.GetOr([]))
  }

  /** `POST /api/sessions/:id/approve`. With `allow` the widened scope is stored
      and returned so that the caller can continue the session in the
      background; without it the session fails. The status is not touched on
      approval: continuing sets it. */
  function Approve(st: Store, sid: Key, allow: bool, addFiles: Option<seq<string>>, addSymbols: Option<seq<string>>)
    : (r: (Store, Response, Option<Scope>))
    ensures GetSession(st, sid).None? ==> r == (st, NotFound("Session not found"), None)
    ensures GetSession(st, sid).Some? ==> r.1 == Success
    ensures r.0 == st.(sessions := r.0.sessions) && |r.0.sessions| == |st.sessions|
    ensures forall k :: k != sid ==> GetSession(r.0, k) == GetSession(st, k)
    ensures GetSession(st, sid).Some? && allow ==>
      var s := st.sessions[sid];
      && r.2 == Some(Widen(s.scope, addFiles, addSymbols))
      && GetSession(r.0, sid) == Some(s.(scope := r.2))
    ensures GetSession(st, sid).Some? && !allow ==>
      && r.2.None?
      && GetSession(r.0, sid) == Some(st.sessions[sid].(status := Failed))
  {
    match GetSession(st, sid)
    case None => (st, NotFound("Session not found"), None)
    case Some(s) =>
      if allow then
        var scope := Widen(s.scope, addFiles, addSymbols);
        match UpdateSession(st, sid, NoSessionChange.(scope := Some(scope)))
        case Err(e) => (st, BadRequest(e), None)
        case Ok(st1) => (st1, Success, Some(scope))
      else
        match UpdateSession(st, sid, StatusOnly(Failed))
        case Err(e) => (st, BadRequest(e), None)
        case Ok(st1) => (st1, Success, None)
  }

  /** An approval followed by its background continuation ends with the session
      completed on the widened scope, however the scope compares with the project
      rules. */
  lemma ApproveThenContinue(st: Store, sid: Key, addFiles: Option<seq<string>>, addSymbols: Option<seq<string>>,
                            answer: Patch, now: nat)
    requires GetSession(st, sid).Some?
    ensures var (st1, _, scope) := Approve(st, sid, true, addFiles, addSymbols);
      && scope.Some?
      && var o := Agent.ContinueSession(st1, sid, scope.value, Ok(answer), now);
      && o.result == Ok(())
      && o.store.sessions[sid].status == Completed
      && o.store.sessions[sid].scope == scope
      && o.store.sessions[sid].scope.value.files
         == (if st.sessions[sid].scope.Some? then st.sessions[sid].scope.value.files else []) + addFiles.GetOr([])
  {
    var (st1, _, scope) := Approve(st, sid, true, addFiles, addSymbols);
    assert GetSession(st1, sid).Some?;
  }

  // ---------------------------------------------------------------------------
  // Apply and revert

  /** Approval by selection: exactly the selected hunks end up approved. */
  function SelectHunks(hs: seq<Hunk>, selected: seq<string>): (r: seq<Hunk>)
    ensures |r| == |hs|
    ensures forall i :: 0 <= i < |r| ==> r[i] == hs[i].(approved := hs[i].id in selected)
  {
    seq(|hs|, i requires 0 <= i < |hs| => hs[i].(approved := hs[i].id in selected))
  }

  /** Approval of everything. */
  function ApproveAllHunks(hs: seq<Hunk>): (r: seq<Hunk>)
    ensures |r| == |hs|
    ensures forall i :: 0 <= i < |r| ==> r[i] == hs[i].(approved := true)
  {
    seq(|hs|, i requires 0 <= i < |hs| => hs[i].(approved := true))
  }

  /** `hunks && hunks.length > 0`: a selection is in force. */
  predicate HasSelection(selected: Option<seq<string>>) {
    selected.Some? && |selected.value| > 0
  }

  /** The update `/apply` makes to one file change: with a selection, exactly
      the selected hunks are approved and the applied flag is left alone;
      without one, every hunk is approved and the change is marked applied.
      Either way the hunks keep their order and everything but the approval. */
  function ApplyPatch(c: FileChange, selected: Option<seq<string>>): (r: FileChangePatch)
    ensures var m := MergeFileChange(c, r);
      && |m.hunks| == |c.hunks|
      && (forall i :: 0 <= i < |c.hunks| ==> m.hunks[i].(approved := c.hunks[i].approved) == c.hunks[i])
      && (HasSelection(selected) ==>
            m.applied == c.applied
            && forall i :: 0 <= i < |c.hunks| ==> (m.hunks[i].approved <==> c.hunks[i].id in selected.value))
      && (!HasSelection(selected) ==> m.applied && forall i :: 0 <= i < |c.hunks| ==> m.hunks[i].approved)
  {
    if HasSelection(selected) then FileChangePatch(Some(SelectHunks(c.hunks, selected.value)), None)
    else FileChangePatch(Some(ApproveAllHunks(c.hunks)), Some(true))
  }

  /** The update `/revert` makes to one file change: only the applied flag is
      cleared; the hunks keep their approvals. */
  function RevertPatch(c: FileChange): (r: FileChangePatch)
    ensures MergeFileChange(c, r) == c.(applied := false)
  {
    FileChangePatch(None, Some(false))
  }

  /** The handlers' loop `for (const change of getSessionFileChanges(sid))`:
      visits the session's changes in insertion order (from key `i` on) and
      merges `u` of each into it. No other record is touched. */
  function UpdateSessionChanges(st: Store, sid: Key, u: FileChange -> FileChangePatch, i: nat): (r: Store)
    ensures r == st.(changes := r.changes) && |r.changes| == |st.changes|
    ensures forall k :: 0 <= k < |st.changes| ==>
      r.changes[k] == if i <= k && st.changes[k].sessionId == sid then MergeFileChange(st.changes[k], u(st.changes[k])) else st.changes[k]
    decreases |st.changes| - i
  {
    if i >= |st.changes| then st
    else if st.changes[i].sessionId == sid then
      match UpdateFileChange(st, i, u(st.changes[i]))
      case Err(_) => st
      case Ok(st1) =>
        assert st1.changes[i] == MergeFileChange(st.changes[i], u(st.changes[i])) by {
          assert GetFileChange(st1, i) == Some(MergeFileChange(st.changes[i], u(st.changes[i])));
        }
        assert forall k :: 0 <= k < |st.changes| && k != i ==> st1.changes[k] == st.changes[k] by {
          forall k | 0 <= k < |st.changes| && k != i
            ensures st1.changes[k] == st.changes[k]
          {
            assert GetFileChange(st1, k) == GetFileChange(st, k);
          }
        }
        UpdateSessionChanges(st1, sid, u, i + 1)
    else UpdateSessionChanges(st, sid, u, i + 1)
  }

  /** `POST /api/sessions/:id/apply`. */
  function Apply(st: Store, sid: Key, selected: Option<seq<string>>): (r: (Store, Response))
    ensures GetSession(st, sid).None? ==> r == (st, NotFound("Session not found"))
    ensures GetSession(st, sid).Some? ==>
      && r.1 == Success
      && r.0 == st.(sessions := r.0.sessions, changes := r.0.changes)
      && r.0.sessions == st.sessions[sid := st.sessions[sid].(status := Completed)]
      && |r.0.changes| == |st.changes|
      // other sessions' changes are untouched
      && (forall k :: 0 <= k < |st.changes| && st.changes[k].sessionId != sid ==> r.0.changes[k] == st.changes[k])
      // this session's changes keep path, type, hunk count and order, and every hunk field but `approved`
      && (forall k :: 0 <= k < |st.changes| && st.changes[k].sessionId == sid ==>
           var c, d := st.changes[k], r.0.changes[k];
           && d.(hunks := c.hunks, applied := c.applied) == c
           && |d.hunks| == |c.hunks|
           && (forall j :: 0 <= j < |c.hunks| ==> d.hunks[j].(approved := c.hunks[j].approved) == c.hunks[j])
           && (HasSelection(selected) ==>
                 d.applied == c.applied
                 && forall j :: 0 <= j < |c.hunks| ==> (d.hunks[j].approved <==> c.hunks[j].id in selected.value))
           && (!HasSelection(selected) ==>
                 d.applied && forall j :: 0 <= j < |c.hunks| ==> d.hunks[j].approved))
  {
    match GetSession(st, sid)
    case None => (st, NotFound("Session not found"))
    case Some(_) =>
      var st1 := UpdateSessionChanges(st, sid, c => ApplyPatch(c, selected), 0);
      match UpdateSession(st1, sid, StatusOnly(Completed))
      case Err(e) => (st1, BadRequest(e))
      case Ok(st2) =>
        assert GetSession(st2, sid) == Some(st.sessions[sid].(status := Completed));
        assert forall k :: 0 <= k < |st.sessions| && k != sid ==> GetSession(st2, k) == GetSession(st, k);
        (st2, Success)
  }

  /** Applying everything twice leaves the store as applying it once. */
  lemma ApplyAllIdempotent(st: Store, sid: Key)
    requires GetSession(st, sid).Some?
    ensures var once := Apply(st, sid, None).0; Apply(once, sid, None).0 == once
  {
    var once := Apply(st, sid, None).0;
    var twice := Apply(once, sid, None).0;
    assert GetSession(once, sid).Some?;
    assert twice.changes == once.changes by {
      forall k | 0 <= k < |once.changes|
        ensures twice.changes[k] == once.changes[k]
      {
        var c := once.changes[k];
        if c.sessionId == sid {
          assert twice.changes[k].hunks == c.hunks;
        }
      }
    }
  }

  /** `POST /api/sessions/:id/revert`: clears `applied` on every change of the
      session; there is no existence check, so an unknown session succeeds
      with nothing changed. */
  function Revert(st: Store, sid: Key): (r: (Store, Response))
    ensures r.1 == Success
    ensures r.0 == st.(changes := r.0.changes) && |r.0.changes| == |st.changes|
    ensures forall k :: 0 <= k < |st.changes| ==>
      r.0.changes[k] == if st.changes[k].sessionId == sid then st.changes[k].(applied := false) else st.changes[k]
  {
    (UpdateSessionChanges(st, sid, RevertPatch, 0), Success)
  }

  // ---------------------------------------------------------------------------
  // Projects

  /** `project.defaultBranch || 'main'`: an absent or empty branch means `main`. */
  function InitialBranch(p: Project): string {
    if p.defaultBranch.Some? && p.defaultBranch.value != "" then p.defaultBranch.value else "main"
  }

  /** `POST /api/projects`: the project is stored and its git state initialised
      on the default branch, level with the remote. */
  function CreateProjectWithGit(st: Store, p: Project, now: nat): (r: (Store, Key))
    ensures GetProject(st, r.1).None? && GetProject(r.0, r.1) == Some(p.(createdAt := now))
    ensures forall k :: k != r.1 ==> GetProject(r.0, k) == GetProject(st, k)
    ensures r.0 == st.(projects := r.0.projects, git := r.0.git)
    ensures forall q :: q != r.1 ==> GetGitState(r.0, q) == GetGitState(st, q)
    ensures GetGitState(r.0, r.1).Some?
    ensures var g := r.0.git[r.1];
      && g.ahead == 0 && g.behind == 0 && g.updatedAt == now
      && (p.defaultBranch.Some? && p.defaultBranch.value != "" ==> g.branch == p.defaultBranch.value)
      && (p.defaultBranch.None? || p.defaultBranch.value == "" ==> g.branch == "main")
      && g.lastCommit.None?
    // the key is fresh for every record, so the project starts with no files
    ensures GetGitState(st, r.1).None?
    ensures ListFiles(r.0, r.1) == map[]
  {
    var (st1, id) := CreateProject(st, p, now);
    var (st2, _) := UpdateGitState(st1, id, GitPatch(Some(InitialBranch(p)), Some(0), Some(0), None), now);
    (st2, id)
  }
}
