/** The template gallery of the HTTP API: listing with a category and a search
    filter, lookup by id, and creating a project from a template. The gallery is
    an in-memory array that the handlers mutate; here it is passed in and
    returned. */
module Templates {
  import opened Wrappers
  import opened Schema
  import opened Storage
  import Seqs
  import Text
  import ScopeCheck

  datatype Template = Template(id: string, name: string, description: string, category: string,
                               tags: seq<string>, downloads: nat)

  /** The category query keeps the template: absent, empty or `all` keeps every
      template, anything else asks for that exact category. */
  predicate CategoryKeeps(category: Option<string>, t: Template) {
    category.None? || category.value == "" || category.value == "all" || t.category == category.value
  }

  /** The lower-cased query is part of the lower-cased name, description or some tag. */
  predicate TemplateMatches(t: Template, q: string) {
    Text.Contains(Text.ToLower(t.name), q)
    || Text.Contains(Text.ToLower(t.description), q)
    || exists i :: 0 <= i < |t.tags| && Text.Contains(Text.ToLower(t.tags[i]), q)
  }

  /** The search query keeps the template: absent or empty keeps every template. */
  predicate SearchKeeps(search: Option<string>, t: Template) {
    search.None? || search.value == "" || TemplateMatches(t, Text.ToLower(search.value))
  }

  /** `GET /api/templates?category=&search=`. */
  function ListTemplates(ts: seq<Template>, category: Option<string>, search: Option<string>): (r: seq<Template>)
    ensures forall t :: t in r <==> t in ts && CategoryKeeps(category, t) && SearchKeeps(search, t)
    ensures Seqs.SubseqOf(r, ts)
  {
    var byCategory :=
      if category.Some? && category.value != "" && category.value != "all"
      then Seqs.Filter(ts, (t: Template) => t.category == category.value)
      else ts;
    Seqs.SubseqRefl(ts);
    if search.Some? && search.value != "" then
      var q := Text.ToLower(search.value);
      var r := Seqs.Filter(byCategory, (t: Template) => TemplateMatches(t, q));
      Storage.SubseqTrans(r, byCategory, ts);
      r
    else byCategory
  }

  /** Without a search, asking for `all` (or nothing) lists the whole gallery in
      its order. */
  lemma ListAll(ts: seq<Template>)
    ensures ListTemplates(ts, Some("all"), None) == ts
    ensures ListTemplates(ts, None, Some("")) == ts
  {
  }

  /** `sampleTemplates.findIndex(t => t.id === id)`: the first template with the id. */
  function FindTemplate(ts: seq<Template>, id: string): (r: Option<nat>)
    ensures r.None? <==> forall i :: 0 <= i < |ts| ==> ts[i].id != id
    ensures r.Some? ==> r.value < |ts| && ts[r.value].id == id
    ensures r.Some? ==> forall i :: 0 <= i < r.value ==> ts[i].id != id
  {
    if |ts| == 0 then None
    else if ts[0].id == id then Some(0)
    else
      var r := FindTemplate(ts[1..], id);
      if r.Some? then Some(r.value + 1) else None
  }

  /** `GET /api/templates/:id`. */
  function GetTemplate(ts: seq<Template>, id: string): (r: Result<Template, string>)
    ensures r.Err? <==> forall t :: t in ts ==> t.id != id
    ensures r.Err? ==> r.error == "Template not found"
    ensures r.Ok? ==> r.value in ts && r.value.id == id
  {
    match FindTemplate(ts, id)
    case None => Err("Template not found")
    case Some(i) => Ok(ts[i])
  }

  /** The settings of a project created from a template. */
  const TemplateSettings := Settings(Some(false), Some(1000), Some(50), Some(["node_modules/**", ".git/**"]), Some(false))

  /** The project a template creates. */
  function TemplateProject(t: Template): Project {
    Project(t.name + " Project", None, Some("main"), TemplateSettings, 0)
  }

  /** `POST /api/templates/:id/create-project`: stores a project named after the
      template with the default settings and counts one more download for the
      template. An unknown id changes nothing. */
  function CreateFromTemplate(st: Store, ts: seq<Template>, id: string, now: nat)
    : (r: (Store, seq<Template>, Result<Key, string>))
    ensures FindTemplate(ts, id).None? ==> r == (st, ts, Err("Template not found"))
    ensures FindTemplate(ts, id).Some? ==>
      var i := FindTemplate(ts, id).value;
      && r.2.Ok?
      && GetProject(st, r.2.value).None?
      && GetProject(r.0, r.2.value) == Some(Project(ts[i].name + " Project", None, Some("main"), TemplateSettings, now))
      && (forall k :: k != r.2.value ==> GetProject(r.0, k) == GetProject(st, k))
      && r.0 == st.(projects := r.0.projects)
      && |r.1| == |ts|
      && r.1[i] == ts[i].(downloads := ts[i].downloads + 1)
      && (forall j :: 0 <= j < |ts| && j != i ==> r.1[j] == ts[j])
  {
    match FindTemplate(ts, id)
    case None => (st, ts, Err("Template not found"))
    case Some(i) =>
      var (st1, pid) := CreateProject(st, TemplateProject(ts[i]), now);
      (st1, ts[i := ts[i].(downloads := ts[i].downloads + 1)], Ok(pid))
  }

  /** The gallery's download count. */
  function TotalDownloads(ts: seq<Template>): nat {
    if |ts| == 0 then 0 else ts[0].downloads + TotalDownloads(ts[1..])
  }

  /** Replacing one template changes the count by the difference. */
  lemma {:induction false} TotalDownloadsUpdate(ts: seq<Template>, i: nat, t: Template)
    requires i < |ts|
    ensures TotalDownloads(ts[i := t]) + ts[i].downloads == TotalDownloads(ts) + t.downloads
    decreases |ts|
  {
    if i > 0 {
      TotalDownloadsUpdate(ts[1..], i - 1, t);
      assert ts[i := t][1..] == ts[1..][i - 1 := t];
    }
  }

  /** The gallery's count goes up by one exactly when the template exists. */
  lemma CreateCountsOneDownload(st: Store, ts: seq<Template>, id: string, now: nat)
    ensures var r := CreateFromTemplate(st, ts, id, now);
      TotalDownloads(r.1) == TotalDownloads(ts) + (if r.2.Ok? then 1 else 0)
  {
    match FindTemplate(ts, id)
    case None =>
    case Some(i) =>
      TotalDownloadsUpdate(ts, i, ts[i].(downloads := ts[i].downloads + 1));
  }

  /** A template project asks for permission before touching more than fifty
      files, or any path that spells out one of its two forbidden entries. */
  lemma TemplateProjectRules(scope: Scope)
    ensures |scope.files| > 50 ==> ScopeCheck.Decide(scope, TemplateSettings).NeedsPermission?
    ensures |scope.files| <= 50 && (forall f :: f in scope.files ==> !ScopeCheck.HitsForbidden(f, TemplateSettings.forbiddenGlobs.value))
            ==> ScopeCheck.Decide(scope, TemplateSettings) == ScopeCheck.Allowed
  {
    if |scope.files| <= 50 && (forall f :: f in scope.files ==> !ScopeCheck.HitsForbidden(f, TemplateSettings.forbiddenGlobs.value)) {
      var off := ScopeCheck.Offending(scope.files, TemplateSettings);
      if |off| > 0 {
        assert off[0] in off;
      }
    }
  }
}
