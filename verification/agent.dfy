/** The server-side agent: turns a session prompt into a checked scope, asks for
    permission or generates a patch, and records the outcome on the session.

    The language model's two answers (the parsed intent and the parsed patch, or
    the message of whatever failed while obtaining them) are parameters, and so
    is the clock. */
module Agent {
  import opened Wrappers
  import opened Schema
  import opened Storage
  import opened Patches
  import opened ScopeCheck
  import Text

  /** What `processSession` returns when it does not throw. */
  datatype Reply =
    | AskPermission(sessionId: Key, reason: string, request: string)
    | PatchProposed(sessionId: Key, patch: Patch)

  const IntentFailed := "Intent creation failed: "
  const PatchFailed := "Patch generation failed: "

  /** `createIntent`: the model's scope, or its failure under the intent prefix. */
  function CreateIntent(answer: Result<Scope, string>): (r: Result<Scope, string>)
    ensures answer.Ok? ==> r == answer
    ensures answer.Err? ==> r.Err? && r.error == IntentFailed + answer.error
  {
    match answer
    case Ok(scope) => Ok(scope)
    case Err(m) => Err(IntentFailed + m)
  }

  /** `proposePatch`: the model's patch with every hunk renamed and unapproved,
      or its failure under the patch prefix. */
  function ProposePatch(answer: Result<Patch, string>, now: nat): (r: Result<Patch, string>)
    ensures r.Ok? <==> answer.Ok?
    ensures answer.Err? ==> r.error == PatchFailed + answer.error
    ensures answer.Ok? ==> r.value.summary == answer.value.summary && |r.value.files| == |answer.value.files|
    ensures answer.Ok? ==> forall k, i :: 0 <= k < |r.value.files| && 0 <= i < |r.value.files[k].hunks| ==>
      var h := r.value.files[k].hunks[i];
      !h.approved && h.id == HunkId(answer.value.files[k].path, i, now)
  {
    match answer
    case Ok(p) => Ok(Normalise(p, now))
    case Err(m) => Err(PatchFailed + m)
  }

  /** The record `createFileChange` receives for one file of a patch; `applied`
      is left undefined, which every reader treats as false. */
  function ChangeFor(sid: Key, f: PatchFile, now: nat): FileChange {
    FileChange(sid, f.path, f.changeType, f.hunks, false, now)
  }

  /** The loop over `patch.files`: one new file change per file, in order. */
  function CreateChanges(st: Store, sid: Key, files: seq<PatchFile>, now: nat): (r: Store)
    ensures r == st.(changes := r.changes)
    ensures |r.changes| == |st.changes| + |files|
    ensures r.changes[..|st.changes|] == st.changes
    ensures forall i :: 0 <= i < |files| ==> r.changes[|st.changes| + i] == ChangeFor(sid, files[i], now)
    decreases |files|
  {
    if |files| == 0 then st
    else
      var (st1, _) := CreateFileChange(st, ChangeFor(sid, files[0], 0), now);
      CreateChanges(st1, sid, files[1..], now)
  }

  /** The body of the `try` in `processSession`. */
  function Attempt(st: Store, sid: Key, pid: Key, intent: Result<Scope, string>,
                   answer: Result<Patch, string>, now: nat): Outcome<Reply>
  {
    match CreateIntent(intent)
    case Err(e) => Outcome(st, Err(e))
    case Ok(scope) =>
      match ValidateScope(scope, GetProject(st, pid))
      case NeedsPermission(reason, request) =>
        (match UpdateSession(st, sid, SessionPatch(Some(PendingApproval), Some(scope), None, None))
         case Err(e) => Outcome(st, Err(e))
         case Ok(st1) => Outcome(st1, Ok(AskPermission(sid, reason, request))))
      case Allowed =>
        match ProposePatch(answer, now)
        case Err(e) => Outcome(st, Err(e))
        case Ok(patch) =>
          var st1 := CreateChanges(st, sid, patch.files, now);
          match UpdateSession(st1, sid, SessionPatch(Some(Completed), Some(scope), Some(patch.summary), None))
          case Err(e) => Outcome(st1, Err(e))
          case Ok(st2) => Outcome(st2, Ok(PatchProposed(sid, patch)))
  }

  /** `processSession`: on any error the session is marked failed and the error
      re-thrown; if marking fails too, that error is what escapes. */
  function ProcessSession(st: Store, sid: Key, pid: Key, intent: Result<Scope, string>,
                          answer: Result<Patch, string>, now: nat): (o: Outcome<Reply>)
    // Only sessions and file changes are written, and changes are only appended.
    ensures o.store == st.(sessions := o.store.sessions, changes := o.store.changes)
    ensures |o.store.sessions| == |st.sessions|
    ensures forall k :: k != sid ==> GetSession(o.store, k) == GetSession(st, k)
    ensures |st.changes| <= |o.store.changes| && o.store.changes[..|st.changes|] == st.changes
    // An unknown session surfaces the store's error.
    ensures GetSession(st, sid).None? ==> o.result == Err("Session not found")
    // A failure while obtaining the intent.
    ensures GetSession(st, sid).Some? && intent.Err? ==>
      && o.result == Err(IntentFailed + intent.error)
      && GetSession(o.store, sid) == Some(st.sessions[sid].(status := Failed))
      && o.store.changes == st.changes
    // A scope that needs permission is parked with the session; nothing is generated.
    ensures GetSession(st, sid).Some? && intent.Ok? && ValidateScope(intent.value, GetProject(st, pid)).NeedsPermission? ==>
      var c := ValidateScope(intent.value, GetProject(st, pid));
      && o.result == Ok(AskPermission(sid, c.reason, c.request))
      && GetSession(o.store, sid) == Some(st.sessions[sid].(status := PendingApproval, scope := Some(intent.value)))
      && o.store.changes == st.changes
    // A failure while generating the patch.
    ensures GetSession(st, sid).Some? && intent.Ok? && ValidateScope(intent.value, GetProject(st, pid)).Allowed? && answer.Err? ==>
      && o.result == Err(PatchFailed + answer.error)
      && GetSession(o.store, sid) == Some(st.sessions[sid].(status := Failed))
      && o.store.changes == st.changes
    // Success: one file change per patch file, and the session completed.
    ensures GetSession(st, sid).Some? && intent.Ok? && ValidateScope(intent.value, GetProject(st, pid)).Allowed? && answer.Ok? ==>
      var patch := Normalise(answer.value, now);
      && o.result == Ok(PatchProposed(sid, patch))
      && GetSession(o.store, sid) == Some(st.sessions[sid].(status := Completed, scope := Some(intent.value), diffSummary := Some(patch.summary)))
      && |o.store.changes| == |st.changes| + |patch.files|
      && forall i :: 0 <= i < |patch.files| ==> o.store.changes[|st.changes| + i] == ChangeFor(sid, patch.files[i], now)
  {
    var a := Attempt(st, sid, pid, intent, answer, now);
    if a.result.Ok? then a else MarkFailed(a, sid)
  }

  /** The `catch` of `processSession`: the session is marked failed and the
      error re-thrown, unless marking fails, whose error then escapes. */
  function MarkFailed(a: Outcome<Reply>, sid: Key): (o: Outcome<Reply>)
    ensures o.store == a.store.(sessions := o.store.sessions)
    ensures |o.store.sessions| == |a.store.sessions|
    ensures forall k :: k != sid ==> GetSession(o.store, k) == GetSession(a.store, k)
    ensures GetSession(a.store, sid).None? ==> o == Outcome(a.store, Err("Session not found"))
    ensures GetSession(a.store, sid).Some? ==>
      o.result == a.result && GetSession(o.store, sid) == Some(a.store.sessions[sid].(status := Failed))
  {
    match UpdateSession(a.store, sid, StatusOnly(Failed))
    case Ok(st2) => Outcome(st2, a.result)
    case Err(e) => Outcome(a.store, Err(e))
  }

  /** `continueSession`: with the approved scope, straight to patch generation.
      The scope is not validated again, and a generation failure escapes with the
      session left active. */
  function ContinueSession(st: Store, sid: Key, scope: Scope, answer: Result<Patch, string>, now: nat): (o: Outcome<()>)
    ensures GetSession(st, sid).None? ==> o == Outcome(st, Ok(()))
    ensures o.store == st.(sessions := o.store.sessions, changes := o.store.changes)
    ensures |o.store.sessions| == |st.sessions|
    ensures forall k :: k != sid ==> GetSession(o.store, k) == GetSession(st, k)
    ensures GetSession(st, sid).Some? && answer.Err? ==>
      && o.result == Err(PatchFailed + answer.error)
      && GetSession(o.store, sid) == Some(st.sessions[sid].(status := Active, scope := Some(scope)))
      && o.store.changes == st.changes
    ensures GetSession(st, sid).Some? && answer.Ok? ==>
      var patch := Normalise(answer.value, now);
      && o.result == Ok(())
      && GetSession(o.store, sid) == Some(st.sessions[sid].(status := Completed, scope := Some(scope), diffSummary := Some(patch.summary)))
      && |o.store.changes| == |st.changes| + |patch.files|
      && o.store.changes[..|st.changes|] == st.changes
      && forall i :: 0 <= i < |patch.files| ==> o.store.changes[|st.changes| + i] == ChangeFor(sid, patch.files[i], now)
  {
    if GetSession(st, sid).None? then Outcome(st, Ok(()))
    else
      match UpdateSession(st, sid, SessionPatch(Some(Active), Some(scope), None, None))
      case Err(e) => Outcome(st, Err(e))
      case Ok(st1) =>
        match ProposePatch(answer, now)
        case Err(e) => Outcome(st1, Err(e))
        case Ok(patch) =>
          var st2 := CreateChanges(st1, sid, patch.files, now);
          match UpdateSession(st2, sid, SessionPatch(Some(Completed), None, Some(patch.summary), None))
          case Err(e) => Outcome(st2, Err(e))
          case Ok(st3) => Outcome(st3, Ok(()))
  }

  /** `continueSession` reads no project settings: a scope the ceiling or the
      forbidden entries would reject still goes through. */
  lemma ContinueIgnoresSettings(st: Store, projects: seq<Option<Project>>, sid: Key, scope: Scope, answer: Result<Patch, string>, now: nat)
    ensures var a := ContinueSession(st.(projects := projects), sid, scope, answer, now);
      var b := ContinueSession(st, sid, scope, answer, now);
      && a.result == b.result
      && a.store.sessions == b.store.sessions
      && a.store.changes == b.store.changes
      && a.store == b.store.(projects := projects)
  {
    var st' := st.(projects := projects);
    if GetSession(st, sid).Some? {
      var u := SessionPatch(Some(Active), Some(scope), None, None);
      UpdateSessionIgnoresProjects(st, projects, sid, u);
      var st1 := UpdateSession(st, sid, u).value;
      if answer.Ok? {
        var patch := Normalise(answer.value, now);
        CreateChangesIgnoresProjects(st1, projects, sid, patch.files, now);
        var st2 := CreateChanges(st1, sid, patch.files, now);
        UpdateSessionIgnoresProjects(st2, projects, sid, SessionPatch(Some(Completed), None, Some(patch.summary), None));
      }
    }
  }

  /** Updating a session reads and writes the session table alone. */
  lemma UpdateSessionIgnoresProjects(st: Store, projects: seq<Option<Project>>, sid: Key, u: SessionPatch)
    ensures var a := UpdateSession(st.(projects := projects), sid, u);
      var b := UpdateSession(st, sid, u);
      && a.Ok? == b.Ok?
      && (a.Ok? ==> a.value == b.value.(projects := projects))
  {
  }

  /** Appending changes reads and writes the change table alone. */
  lemma {:induction false} CreateChangesIgnoresProjects(st: Store, projects: seq<Option<Project>>, sid: Key,
                                                        files: seq<PatchFile>, now: nat)
    ensures CreateChanges(st.(projects := projects), sid, files, now) == CreateChanges(st, sid, files, now).(projects := projects)
    decreases |files|
  {
    if |files| > 0 {
      var st1 := CreateFileChange(st, ChangeFor(sid, files[0], 0), now).0;
      assert CreateFileChange(st.(projects := projects), ChangeFor(sid, files[0], 0), now).0 == st1.(projects := projects);
      CreateChangesIgnoresProjects(st1, projects, sid, files[1..], now);
    }
  }

  /** A file as handed to the patch prompt. */
  datatype ContextFile = ContextFile(path: string, content: string)

  /** `gatherContext`: every scope file in order, with its content or `''` when it
      cannot be read (it may be about to be created). `read` stands for the
      indexer's file read. */
  function GatherContext(files: seq<string>, read: string -> Option<string>): (r: seq<ContextFile>)
    ensures |r| == |files|
    ensures forall i :: 0 <= i < |r| ==> r[i].path == files[i]
    ensures forall i :: 0 <= i < |r| && read(files[i]).None? ==> r[i].content == ""
    ensures forall i :: 0 <= i < |r| && read(files[i]).Some? ==> r[i].content == read(files[i]).value
  {
    seq(|files|, i requires 0 <= i < |files| => ContextFile(files[i], read(files[i]).GetOr("")))
  }
}
