/** The scope rules an intent is checked against before any patch is generated:
    first the file-count ceiling, then the forbidden substrings. Only the first
    violated rule is reported. */
module ScopeCheck {
  import opened Wrappers
  import opened Schema
  import Seqs
  import Text

  /** `{ needsPermission: false }` or `{ needsPermission: true, reason, request }`. */
  datatype Check = Allowed | NeedsPermission(reason: string, request: string)

  /** `settings.maxFiles && files.length > settings.maxFiles`: an absent or zero
      ceiling is switched off. */
  predicate ExceedsMaxFiles(files: seq<string>, s: Settings) {
    s.maxFiles.Some? && s.maxFiles.value != 0 && |files| > s.maxFiles.value
  }

  /** `globs.some(glob => file.includes(glob))`: the "globs" are plain substrings. */
  predicate HitsForbidden(file: string, globs: seq<string>) {
    exists i :: 0 <= i < |globs| && Text.Contains(file, globs[i])
  }

  /** The files that include some forbidden entry, in scope order. */
  function ForbiddenFiles(files: seq<string>, globs: seq<string>): (r: seq<string>)
    ensures forall f :: f in r <==> f in files && HitsForbidden(f, globs)
    ensures Seqs.SubseqOf(r, files)
  {
    Seqs.Filter(files, f => HitsForbidden(f, globs))
  }

  /** The offending files when forbidden entries are configured (an empty array
      is still configured). */
  function Offending(files: seq<string>, s: Settings): seq<string> {
    if s.forbiddenGlobs.Some? then ForbiddenFiles(files, s.forbiddenGlobs.value) else []
  }

  function MaxFilesReason(n: nat, max: int): string {
    "Scope exceeds max files limit (" + Text.NatToString(n) + " > " + Text.IntToString(max) + ")"
  }

  function MaxFilesRequest(n: nat): string {
    "Allow editing " + Text.NatToString(n) + " files?"
  }

  const ForbiddenPrefix := "Attempting to modify forbidden files: "
  const ForbiddenRequest := "Allow modifying these restricted files?"

  /** The decision for a scope under the given settings. */
  function Decide(scope: Scope, s: Settings): (r: Check)
    ensures r.NeedsPermission? <==> ExceedsMaxFiles(scope.files, s) || |Offending(scope.files, s)| > 0
    ensures ExceedsMaxFiles(scope.files, s) ==>
      && r.request == MaxFilesRequest(|scope.files|)
      && Text.Contains(r.reason, Text.NatToString(|scope.files|))
      && Text.Contains(r.reason, Text.IntToString(s.maxFiles.value))
    ensures !ExceedsMaxFiles(scope.files, s) && r.NeedsPermission? ==>
      && r.request == ForbiddenRequest
      && r.reason == ForbiddenPrefix + Text.Join(Offending(scope.files, s), ", ")
      && forall f :: f in Offending(scope.files, s) ==> Text.Contains(r.reason, f)
  {
    var n := |scope.files|;
    if ExceedsMaxFiles(scope.files, s) then
      var m := s.maxFiles.value;
      ReasonMentionsCounts(n, m);
      NeedsPermission(MaxFilesReason(n, m), MaxFilesRequest(n))
    else
      var off := Offending(scope.files, s);
      if |off| > 0 then
        var reason := ForbiddenPrefix + Text.Join(off, ", ");
        forall f | f in off
          ensures Text.Contains(reason, f)
        {
          var i :| 0 <= i < |off| && off[i] == f;
          Text.JoinContains(off, ", ", i);
          Text.ContainsAppend(ForbiddenPrefix, Text.Join(off, ", "), f);
        }
        NeedsPermission(reason, ForbiddenRequest)
      else Allowed
  }

  /** The file-count reason names both the count and the ceiling. */
  lemma ReasonMentionsCounts(n: nat, m: int)
    ensures Text.Contains(MaxFilesReason(n, m), Text.NatToString(n))
    ensures Text.Contains(MaxFilesReason(n, m), Text.IntToString(m))
  {
    ReasonNamesCount(n, m);
    ReasonNamesCeiling(n, m);
  }

  lemma ReasonNamesCount(n: nat, m: int)
    ensures Text.Contains(MaxFilesReason(n, m), Text.NatToString(n))
  {
    var a := "Scope exceeds max files limit (";
    var dn := Text.NatToString(n);
    var dm := Text.IntToString(m);
    Text.ContainsMiddle(a, dn, " > ");
    Text.ContainsAppend(a + dn + " > ", dm, dn);
    Text.ContainsAppend(a + dn + " > " + dm, ")", dn);
  }

  lemma ReasonNamesCeiling(n: nat, m: int)
    ensures Text.Contains(MaxFilesReason(n, m), Text.IntToString(m))
  {
    var a := "Scope exceeds max files limit (";
    Text.ContainsMiddle(a + Text.NatToString(n) + " > ", Text.IntToString(m), ")");
  }

  /** `validateScope(scope, projectId)` on the server: the settings of the stored
      project, or none at all for an unknown project. */
  function ValidateScope(scope: Scope, project: Option<Project>): (r: Check)
    ensures project.None? ==> r == Allowed
    ensures project.Some? ==> r == Decide(scope, project.value.settings)
  {
    Decide(scope, if project.Some? then project.value.settings else NoSettings)
  }

  // ---------------------------------------------------------------------------
  // Consequences of the substring rule

  /** An empty forbidden entry is a substring of every path: it flags every file. */
  lemma {:induction false} EmptyEntryFlagsAll(files: seq<string>, globs: seq<string>)
    requires "" in globs
    ensures ForbiddenFiles(files, globs) == files
    decreases |files|
  {
    if |files| > 0 {
      var k :| 0 <= k < |globs| && globs[k] == "";
      Text.ContainsEmpty(files[0]);
      assert HitsForbidden(files[0], globs);
      EmptyEntryFlagsAll(files[1..], globs);
      assert files == [files[0]] + files[1..];
      Seqs.FilterAppend([files[0]], files[1..], f => HitsForbidden(f, globs));
    }
  }

  /** The configured entry "node_modules" + "/" + "**" is no wildcard: it flags
      exactly the paths that literally include it, and those all include the two
      stars. */
  lemma NodeModulesEntryIsLiteral(file: string)
    ensures HitsForbidden(file, ["node_modules/**"]) <==> Text.Contains(file, "node_modules/**")
    ensures HitsForbidden(file, ["node_modules/**"]) ==> Text.Contains(file, "**")
  {
    var globs := ["node_modules/**"];
    assert globs[0] == "node_modules/**";
    if HitsForbidden(file, globs) {
      assert "node_modules/**" == "node_modules/" + "**";
      Text.ContainsSuffix(file, "node_modules/", "**");
    }
  }

  /** So an ordinary path under the directory is not flagged. */
  lemma NodeModulesPathNotFlagged()
    ensures !HitsForbidden("node_modules/react/index.js", ["node_modules/**"])
  {
    var f := "node_modules/react/index.js";
    NodeModulesEntryIsLiteral(f);
    Text.ContainsHead(f, "**");
    assert '*' !in f;
  }

  /** Rule order: a scope over the ceiling is reported for its size even when it
      also touches forbidden files, and a scope within every rule is allowed. */
  lemma RuleOrder(scope: Scope, s: Settings)
    ensures ExceedsMaxFiles(scope.files, s) ==> Decide(scope, s).request == MaxFilesRequest(|scope.files|)
    ensures !ExceedsMaxFiles(scope.files, s) && |Offending(scope.files, s)| == 0 ==> Decide(scope, s) == Allowed
  {
  }
}
