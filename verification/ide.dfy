/** The editor's open-tab list: opening a file adds a tab for it once, closing a
    tab removes it and moves the selection when the selected file was closed.
    The file request is a parameter: its answer, or its failure. */
module Ide {
  import opened Wrappers
  import Text
  import Seqs

  datatype Tab = Tab(path: string, name: string, icon: string, modified: bool)

  /** The editor state: the selected file (`""` for none), its text, the tabs. */
  datatype Editor = Editor(currentFile: string, content: string, tabs: seq<Tab>)

  const Closed := Editor("", "", [])

  /** `filePath.split('/').pop() || filePath`: the last path segment, or the
      whole path when that segment is empty. */
  function FileName(path: string): (r: string)
    ensures r == path || ('/' !in r && |r| < |path| && r == path[|path| - |r|..] && path[|path| - |r| - 1] == '/')
    ensures r == "" ==> path == ""
  {
    var last := Text.LastPiece(path, '/');
    if last == "" then path else last
  }

  /** `fileName.split('.').pop()?.toLowerCase()`: a name without a dot is its
      own extension. */
  function Extension(name: string): string {
    Text.ToLower(Text.LastPiece(name, '.'))
  }

  /** The icon class for an extension. */
  function IconFor(ext: string): (r: string)
    ensures r == "fas fa-file" <==> ext !in {"tsx", "ts", "js", "jsx", "css", "scss", "json", "md"}
  {
    if ext == "tsx" || ext == "ts" then "fas fa-file-code text-blue-400"
    else if ext == "js" || ext == "jsx" then "fas fa-file-code text-yellow-400"
    else if ext == "css" || ext == "scss" then "fas fa-file-code text-purple-400"
    else if ext == "json" then "fas fa-file-code text-green-400"
    else if ext == "md" then "fas fa-file-alt text-yellow-400"
    else "fas fa-file"
  }

  function TabIcon(name: string): string {
    IconFor(Extension(name))
  }

  /** Lower-casing changes no dot. */
  lemma LowerKeepsDots(s: string)
    ensures forall i :: 0 <= i < |s| ==> (Text.ToLower(s)[i] == '.' <==> s[i] == '.')
  {
  }

  /** The icon depends on the extension only up to case: a name and its
      lower-cased form get the same icon. */
  lemma IconIgnoresCase(name: string)
    ensures TabIcon(Text.ToLower(name)) == TabIcon(name)
  {
    var low := Text.ToLower(name);
    var r := Text.LastPiece(name, '.');
    var k := |name| - |r|;
    LowerKeepsDots(name);
    assert low[k..] == Text.ToLower(r);
    assert '.' !in Text.ToLower(r) by {
      forall i | 0 <= i < |r|
        ensures Text.ToLower(r)[i] != '.'
      {
        assert r[i] == name[k + i];
        assert Text.ToLower(r)[i] == low[k + i];
      }
    }
    Text.LastPieceUnique(low, '.', Text.ToLower(r));
    Text.ToLowerIdempotent(r);
  }

  /** Tab paths are pairwise distinct. */
  predicate DistinctPaths(tabs: seq<Tab>) {
    forall i, j :: 0 <= i < j < |tabs| ==> tabs[i].path != tabs[j].path
  }

  predicate HasTab(tabs: seq<Tab>, path: string) {
    exists i :: 0 <= i < |tabs| && tabs[i].path == path
  }

  /** The editor is consistent: no path has two tabs, and the selected file, if
      any, has a tab. */
  predicate Valid(e: Editor) {
    DistinctPaths(e.tabs) && (e.currentFile == "" || HasTab(e.tabs, e.currentFile))
  }

  /** `openFile(path)` once the request has answered: a failure changes nothing;
      otherwise the file is selected with its text (`data.content || ''`), and a
      tab is appended unless one is open for the path. */
  function OpenFile(e: Editor, path: string, response: Result<Option<string>, string>): (r: Editor)
    ensures response.Err? ==> r == e
    ensures response.Ok? ==> r.currentFile == path && r.content == response.value.GetOr("")
    ensures response.Ok? && HasTab(e.tabs, path) ==> r.tabs == e.tabs
    ensures response.Ok? && !HasTab(e.tabs, path) ==>
      r.tabs == e.tabs + [Tab(path, FileName(path), TabIcon(FileName(path)), false)]
  {
    match response
    case Err(_) => e
    case Ok(data) =>
      var name := FileName(path);
      var tabs := if HasTab(e.tabs, path) then e.tabs else e.tabs + [Tab(path, name, TabIcon(name), false)];
      Editor(path, data.GetOr(""), tabs)
  }

  /** Opening keeps the editor consistent, and afterwards the path has exactly
      one tab. */
  lemma OpenKeepsValid(e: Editor, path: string, response: Result<Option<string>, string>)
    requires Valid(e)
    ensures Valid(OpenFile(e, path, response))
    ensures response.Ok? ==> HasTab(OpenFile(e, path, response).tabs, path)
  {
    var r := OpenFile(e, path, response);
    if response.Ok? && !HasTab(e.tabs, path) {
      assert r.tabs[|e.tabs|].path == path;
      if e.currentFile != "" {
        var i :| 0 <= i < |e.tabs| && e.tabs[i].path == e.currentFile;
        assert r.tabs[i] == e.tabs[i];
      }
    }
  }

  /** Opening the same file twice gives what opening it once gives. */
  lemma OpenTwice(e: Editor, path: string, data: Option<string>)
    ensures var once := OpenFile(e, path, Ok(data));
      OpenFile(once, path, Ok(data)) == once
  {
    var once := OpenFile(e, path, Ok(data));
    if !HasTab(e.tabs, path) {
      assert once.tabs[|e.tabs|].path == path;
    }
  }

  predicate KeepsTab(path: string, t: Tab) {
    t.path != path
  }

  /** `closeTab(path)`: every tab for the path goes; if it was the selected
      file, the first remaining tab is selected, or nothing and no text when
      none remain. The text of a newly selected tab arrives by a later request. */
  function CloseTab(e: Editor, path: string): (r: Editor)
    ensures forall t :: t in r.tabs <==> t in e.tabs && t.path != path
    ensures Seqs.SubseqOf(r.tabs, e.tabs)
    ensures e.currentFile != path ==> r.currentFile == e.currentFile && r.content == e.content
    ensures e.currentFile == path && |r.tabs| > 0 ==> r.currentFile == r.tabs[0].path && r.content == e.content
    ensures e.currentFile == path && |r.tabs| == 0 ==> r.currentFile == "" && r.content == ""
  {
    var remaining := Seqs.Filter(e.tabs, t => KeepsTab(path, t));
    if e.currentFile != path then e.(tabs := remaining)
    else if |remaining| > 0 then e.(tabs := remaining, currentFile := remaining[0].path)
    else Editor("", "", remaining)
  }

  /** A subsequence of tabs with distinct paths has distinct paths. */
  lemma {:induction false} SubseqKeepsDistinctPaths(a: seq<Tab>, b: seq<Tab>)
    requires Seqs.SubseqOf(a, b) && DistinctPaths(b)
    ensures DistinctPaths(a)
    decreases |b|
  {
    Seqs.SubseqKeepsDistinct(a, b, (t: Tab) => t.path);
  }

  /** Closing keeps the editor consistent and leaves no tab for the path. */
  lemma CloseKeepsValid(e: Editor, path: string)
    requires Valid(e)
    ensures Valid(CloseTab(e, path))
    ensures !HasTab(CloseTab(e, path).tabs, path)
  {
    var r := CloseTab(e, path);
    SubseqKeepsDistinctPaths(r.tabs, e.tabs);
    if e.currentFile != path && e.currentFile != "" {
      var i :| 0 <= i < |e.tabs| && e.tabs[i].path == e.currentFile;
      assert e.tabs[i] in r.tabs;
    }
    if r.currentFile != "" && e.currentFile == path {
      assert r.tabs[0].path == r.currentFile;
    }
  }

  /** What the user does: open a file (with the request's outcome) or close a tab. */
  datatype Action = Open(path: string, response: Result<Option<string>, string>) | Close(path: string)

  function Step(e: Editor, a: Action): Editor {
    match a
    case Open(p, resp) => OpenFile(e, p, resp)
    case Close(p) => CloseTab(e, p)
  }

  function Run(e: Editor, actions: seq<Action>): Editor
    decreases |actions|
  {
    if |actions| == 0 then e else Run(Step(e, actions[0]), actions[1..])
  }

  /** From a closed editor, any sequence of opens and closes keeps every path on
      at most one tab, and the selected file on a tab. */
  lemma {:induction false} RunKeepsValid(e: Editor, actions: seq<Action>)
    requires Valid(e)
    ensures Valid(Run(e, actions))
    decreases |actions|
  {
    if |actions| > 0 {
      match actions[0] {
        case Open(p, resp) => OpenKeepsValid(e, p, resp);
        case Close(p) => CloseKeepsValid(e, p);
      }
      RunKeepsValid(Step(e, actions[0]), actions[1..]);
    }
  }

  lemma ClosedIsValid()
    ensures Valid(Closed)
  {
  }
}
