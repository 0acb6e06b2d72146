/** The browser-side agent service: the same scope check and patch
    post-processing as the server, reached through `fetch`. */
module ClientAgent {
  import opened Wrappers
  import opened Schema
  import opened Patches
  import opened ScopeCheck
  import Seqs
  import Text
  import Agent

  /** What one `fetch` to the agent endpoints comes to: a non-OK status, some
      thrown error (network, JSON parsing, a missing field), or the parsed answer. */
  datatype Fetched<T> = NotOk(statusText: string) | Threw(message: string) | Parsed(value: T)

  const RequestFailed := "OpenAI request failed: "

  /** The message a failed fetch throws before the caller adds its own prefix. */
  function FailureMessage<T>(f: Fetched<T>): string
    requires !f.Parsed?
  {
    if f.NotOk? then RequestFailed + f.statusText else f.message
  }

  /** `createIntent`: the parsed scope, or every failure under the intent prefix. */
  function CreateIntent(f: Fetched<Scope>): (r: Result<Scope, string>)
    ensures r.Ok? <==> f.Parsed?
    ensures f.Parsed? ==> r.value == f.value
    ensures f.NotOk? ==> r.error == Agent.IntentFailed + RequestFailed + f.statusText
    ensures f.Threw? ==> r.error == Agent.IntentFailed + f.message
  {
    if f.Parsed? then Ok(f.value) else Err(Agent.IntentFailed + FailureMessage(f))
  }

  /** `proposePatch`: the parsed patch renamed and unapproved exactly as the
      server does it, or every failure under the patch prefix. */
  function ProposePatch(f: Fetched<Patch>, now: nat): (r: Result<Patch, string>)
    ensures f.Parsed? ==> r == Agent.ProposePatch(Ok(f.value), now)
    ensures !f.Parsed? ==> r == Agent.ProposePatch(Err(FailureMessage(f)), now)
  {
    if f.Parsed? then Ok(Normalise(f.value, now)) else Err(Agent.PatchFailed + FailureMessage(f))
  }

  /** `projectSettings.forbiddenGlobs.some(glob => file.includes(glob))`. */
  method SomeIncluded(file: string, globs: seq<string>) returns (hit: bool)
    ensures hit <==> HitsForbidden(file, globs)
  {
    hit := false;
    var j := 0;
    while j < |globs| && !hit
      invariant 0 <= j <= |globs|
      invariant hit <==> exists k :: 0 <= k < j && Text.Contains(file, globs[k])
    {
      Text.IndexOfFinds(file, globs[j]);
      hit := Text.IndexOf(file, globs[j], 0).Some?;
      j := j + 1;
    }
  }

  /** Scanning one more file extends the offending list by that file or by nothing. */
  lemma ForbiddenFilesStep(files: seq<string>, i: nat, globs: seq<string>)
    requires i < |files|
    ensures ForbiddenFiles(files[..i + 1], globs)
         == ForbiddenFiles(files[..i], globs) + (if HitsForbidden(files[i], globs) then [files[i]] else [])
  {
    assert files[..i + 1] == files[..i] + [files[i]];
    Seqs.FilterAppend(files[..i], [files[i]], g => HitsForbidden(g, globs));
  }

  /** The files that include some forbidden glob, in order. */
  method CollectForbidden(files: seq<string>, globs: seq<string>) returns (off: seq<string>)
    ensures off == ForbiddenFiles(files, globs)
  {
    off := [];
    var i := 0;
    while i < |files|
      invariant 0 <= i <= |files|
      invariant off == ForbiddenFiles(files[..i], globs)
    {
      var hit := SomeIncluded(files[i], globs);
      ForbiddenFilesStep(files, i, globs);
      if hit {
        off := off + [files[i]];
      }
      i := i + 1;
    }
    assert files[..i] == files;
  }

  /** `validateScope(scope, projectSettings)`, with its loops written out. It
      decides exactly as the server's check does. */
  method ValidateScope(scope: Scope, settings: Settings) returns (r: Check)
    ensures r == Decide(scope, settings)
  {
    var n := |scope.files|;
    if settings.maxFiles.Some? && settings.maxFiles.value != 0 && n > settings.maxFiles.value {
      return NeedsPermission(MaxFilesReason(n, settings.maxFiles.value), MaxFilesRequest(n));
    }
    if settings.forbiddenGlobs.Some? {
      var off := CollectForbidden(scope.files, settings.forbiddenGlobs.value);
      if |off| > 0 {
        return NeedsPermission(ForbiddenPrefix + Text.Join(off, ", "), ForbiddenRequest);
      }
    }
    return Allowed;
  }
}
