/** The in-memory store (`MemStorage`): one table per entity, the cached git state
    and the saved files of each project.

    A table is a sequence and a record's key is its position: keys are never
    reused (nothing is ever deleted), a fresh key is the table's length, and
    listing a table in key order is listing it in insertion order, which is the
    iteration order of the JavaScript `Map` the source uses.

    Project keys are the exception. The git states, the saved files, sessions
    and memory notes accept any project id, so rows can exist for an id that
    no project has. A random UUID never meets such a row; here the new
    project's key skips past every id already in use, and the skipped
    positions of the project table stay empty. */
module Storage {
  import opened Wrappers
  import opened Schema
  import Seqs
  import Text

  /** A listed record together with its key. */
  datatype Entry<T> = Entry(id: Key, value: T)

  datatype Store = Store(
    projects: seq<Option<Project>>,
    sessions: seq<Session>,
    notes: seq<MemoryNote>,
    changes: seq<FileChange>,
    git: map<Key, GitState>,
    files: map<Key, map<string, string>>)

  /** The store as the constructor leaves it. */
  const EmptyStore := Store([], [], [], [], map[], map[])

  /** The store after an operation, with its value or the message of the `Error`
      it threw; on a throw the store keeps whatever was written before it. */
  datatype Outcome<T> = Outcome(store: Store, result: Result<T, string>)

  // ---------------------------------------------------------------------------
  // Tables

  /** `map.get(id)`. */
  function Get<T>(t: seq<T>, id: Key): Option<T> {
    if id < |t| then Some(t[id]) else None
  }

  /** `e` is a stored record under its own key. */
  predicate IsRow<T(==)>(t: seq<T>, e: Entry<T>) {
    e.id < |t| && t[e.id] == e.value
  }

  /** `Array.from(map.entries())`: every record with its key, in insertion order. */
  function Rows<T(!new,==)>(t: seq<T>): (r: seq<Entry<T>>)
    ensures |r| == |t|
    ensures forall i :: 0 <= i < |r| ==> r[i].id == i
    ensures forall e :: e in r <==> IsRow(t, e)
  {
    var r := seq(|t|, i requires 0 <= i < |t| => Entry(i, t[i]));
    assert forall e :: IsRow(t, e) ==> r[e.id] == e;
    r
  }

  /** `map.set(randomUUID(), v)`: the key handed out was not in use before. */
  function Add<T>(t: seq<T>, v: T): (r: (seq<T>, Key))
    ensures Get(t, r.1) == None
    ensures Get(r.0, r.1) == Some(v)
    ensures forall k :: k != r.1 ==> Get(r.0, k) == Get(t, k)
  {
    (t + [v], |t|)
  }

  /** `map.set(id, f(map.get(id)))` on a present key. */
  function Modify<T>(t: seq<T>, id: Key, f: T -> T): (r: seq<T>)
    requires id < |t|
    ensures forall k :: Get(r, k) == if k == id then Some(f(t[id])) else Get(t, k)
  {
    t[id := f(t[id])]
  }

  // ---------------------------------------------------------------------------
  // Projects

  /** `getProject`: only a key handed out by `CreateProject` finds a project. */
  function GetProject(st: Store, id: Key): (r: Option<Project>)
    ensures r.Some? ==> id < |st.projects|
    ensures id >= FreshProjectKey(st) ==> r.None?
  {
    if id < |st.projects| then st.projects[id] else None
  }

  /** Every project id some record of the store refers to. */
  function ProjectIdsInUse(st: Store): set<Key> {
    st.git.Keys + st.files.Keys
      + (set s | s in st.sessions :: s.projectId)
      + (set n | n in st.notes :: n.projectId)
  }

  /** A project key no record of the store uses yet: past the project table
      and past every id in use. */
  function FreshProjectKey(st: Store): (k: Key)
    ensures k >= |st.projects|
    ensures k !in ProjectIdsInUse(st)
  {
    var used := ProjectIdsInUse(st);
    if used == {} then |st.projects|
    else
      var m := Seqs.SetMax(used);
      if m < |st.projects| then |st.projects| else m + 1
  }

  /** `createProject`: stores the record, stamped with `now`, under a key that
      neither a project nor any other record has used. */
  function CreateProject(st: Store, p: Project, now: nat): (r: (Store, Key))
    ensures GetProject(st, r.1) == None
    ensures GetProject(r.0, r.1) == Some(p.(createdAt := now))
    ensures forall k :: k != r.1 ==> GetProject(r.0, k) == GetProject(st, k)
    ensures r.1 !in st.git && r.1 !in st.files
    ensures forall s :: s in st.sessions ==> s.projectId != r.1
    ensures forall n :: n in st.notes ==> n.projectId != r.1
    ensures r.0 == st.(projects := r.0.projects)
  {
    var id := FreshProjectKey(st);
    var t := st.projects + seq(id - |st.projects|, _ => None) + [Some(p.(createdAt := now))];
    assert forall k: nat :: k < |t| ==> t[k] == if k < |st.projects| then st.projects[k] else if k == id then Some(p.(createdAt := now)) else None;
    (st.(projects := t), id)
  }

  /** `updateProject`: merges into a present record; a missing key is an error
      and (the result carrying no store) nothing changes. */
  function UpdateProject(st: Store, id: Key, u: ProjectPatch): (r: Result<Store, string>)
    ensures r.Err? <==> GetProject(st, id).None?
    ensures r.Err? ==> r.error == "Project not found"
    ensures r.Ok? ==>
      forall k :: GetProject(r.value, k) == (if k == id then Some(MergeProject(GetProject(st, id).value, u)) else GetProject(st, k))
    ensures r.Ok? ==> r.value == st.(projects := r.value.projects)
    ensures r.Ok? ==> |r.value.projects| == |st.projects|
  {
    match GetProject(st, id)
    case Some(p) => Ok(st.(projects := st.projects[id := Some(MergeProject(p, u))]))
    case None => Err("Project not found")
  }

  // ---------------------------------------------------------------------------
  // Sessions

  /** `getSession`: a key finds exactly the session listed under it. */
  function GetSession(st: Store, id: Key): (r: Option<Session>)
    ensures forall v :: r == Some(v) <==> Entry(id, v) in Rows(st.sessions)
  {
    Get(st.sessions, id)
  }

  /** `createSession`: stores the record, stamped with `now`, under a fresh key. */
  function CreateSession(st: Store, s: Session, now: nat): (r: (Store, Key))
    ensures GetSession(st, r.1) == None
    ensures GetSession(r.0, r.1) == Some(s.(createdAt := now))
    ensures forall k :: k != r.1 ==> GetSession(r.0, k) == GetSession(st, k)
    ensures r.0 == st.(sessions := r.0.sessions)
  {
    var (t, id) := Add(st.sessions, s.(createdAt := now));
    (st.(sessions := t), id)
  }

  /** `updateSession`: merges into a present record; a missing key is an error. */
  function UpdateSession(st: Store, id: Key, u: SessionPatch): (r: Result<Store, string>)
    ensures r.Err? <==> GetSession(st, id).None?
    ensures r.Err? ==> r.error == "Session not found"
    ensures r.Ok? ==>
      forall k :: GetSession(r.value, k) == (if k == id then Some(MergeSession(st.sessions[id], u)) else GetSession(st, k))
    ensures r.Ok? ==> r.value == st.(sessions := r.value.sessions)
    ensures r.Ok? ==> |r.value.sessions| == |st.sessions|
  {
    if id < |st.sessions| then Ok(st.(sessions := Modify(st.sessions, id, s => MergeSession(s, u))))
    else Err("Session not found")
  }

  /** `getProjectSessions`: exactly the project's sessions, in insertion order. */
  function GetProjectSessions(st: Store, pid: Key): (r: seq<Entry<Session>>)
    ensures forall e :: e in r <==> IsRow(st.sessions, e) && e.value.projectId == pid
    ensures Seqs.SubseqOf(r, Rows(st.sessions))
  {
    Seqs.Filter(Rows(st.sessions), (e: Entry<Session>) => e.value.projectId == pid)
  }

  // ---------------------------------------------------------------------------
  // File changes

  function GetFileChange(st: Store, id: Key): Option<FileChange> {
    Get(st.changes, id)
  }

  /** `createFileChange`: stores the record, stamped with `now`, under a fresh key. */
  function CreateFileChange(st: Store, c: FileChange, now: nat): (r: (Store, Key))
    ensures GetFileChange(st, r.1) == None
    ensures GetFileChange(r.0, r.1) == Some(c.(createdAt := now))
    ensures forall k :: k != r.1 ==> GetFileChange(r.0, k) == GetFileChange(st, k)
    ensures r.0 == st.(changes := r.0.changes)
  {
    var (t, id) := Add(st.changes, c.(createdAt := now));
    (st.(changes := t), id)
  }

  /** `updateFileChange`: merges into a present record; a missing key is an error. */
  function UpdateFileChange(st: Store, id: Key, u: FileChangePatch): (r: Result<Store, string>)
    ensures r.Err? <==> GetFileChange(st, id).None?
    ensures r.Err? ==> r.error == "File change not found"
    ensures r.Ok? ==>
      forall k :: GetFileChange(r.value, k) == (if k == id then Some(MergeFileChange(st.changes[id], u)) else GetFileChange(st, k))
    ensures r.Ok? ==> r.value == st.(changes := r.value.changes)
    ensures r.Ok? ==> |r.value.changes| == |st.changes|
  {
    if id < |st.changes| then Ok(st.(changes := Modify(st.changes, id, c => MergeFileChange(c, u))))
    else Err("File change not found")
  }

  /** `getSessionFileChanges`: exactly the session's changes, in insertion order. */
  function GetSessionFileChanges(st: Store, sid: Key): (r: seq<Entry<FileChange>>)
    ensures forall e :: e in r <==> IsRow(st.changes, e) && e.value.sessionId == sid
    ensures Seqs.SubseqOf(r, Rows(st.changes))
  {
    Seqs.Filter(Rows(st.changes), (e: Entry<FileChange>) => e.value.sessionId == sid)
  }

  // ---------------------------------------------------------------------------
  // Memory notes

  function GetMemoryNote(st: Store, id: Key): Option<MemoryNote> {
    Get(st.notes, id)
  }

  /** `createMemoryNote`: stores the record, stamped with `now`, under a fresh key. */
  function CreateMemoryNote(st: Store, n: MemoryNote, now: nat): (r: (Store, Key))
    ensures GetMemoryNote(st, r.1) == None
    ensures GetMemoryNote(r.0, r.1) == Some(n.(createdAt := now))
    ensures forall k :: k != r.1 ==> GetMemoryNote(r.0, k) == GetMemoryNote(st, k)
    ensures r.0 == st.(notes := r.0.notes)
  {
    var (t, id) := Add(st.notes, n.(createdAt := now));
    (st.(notes := t), id)
  }

  /** The project's notes in insertion order. */
  function ProjectNotes(st: Store, pid: Key): (r: seq<Entry<MemoryNote>>)
    ensures forall e :: e in r <==> IsRow(st.notes, e) && e.value.projectId == pid
    ensures Seqs.SubseqOf(r, Rows(st.notes))
  {
    Seqs.Filter(Rows(st.notes), (e: Entry<MemoryNote>) => e.value.projectId == pid)
  }

  /** The note's lower-cased content or one of its lower-cased tags includes `q`. */
  predicate NoteMatches(n: MemoryNote, q: string) {
    Text.Contains(Text.ToLower(n.content), q)
    || exists i :: 0 <= i < |n.tags| && Text.Contains(Text.ToLower(n.tags[i]), q)
  }

  /** `searchMemoryNotes`: the project's notes matching the query case-insensitively,
      or all of them for an empty query, in insertion order. */
  function SearchMemoryNotes(st: Store, pid: Key, query: string): (r: seq<Entry<MemoryNote>>)
    ensures forall e :: e in r <==>
      IsRow(st.notes, e) && e.value.projectId == pid && (query == "" || NoteMatches(e.value, Text.ToLower(query)))
    ensures Seqs.SubseqOf(r, Rows(st.notes))
  {
    var notes := ProjectNotes(st, pid);
    if query == "" then notes
    else
      var q := Text.ToLower(query);
      var r := Seqs.Filter(notes, (e: Entry<MemoryNote>) => NoteMatches(e.value, q));
      SubseqTrans(r, notes, Rows(st.notes));
      r
  }

  /** The empty query needs no special case: every note matches it. */
  lemma EmptyQueryMatchesAll(n: MemoryNote)
    ensures NoteMatches(n, Text.ToLower(""))
  {
    Text.ContainsEmpty(Text.ToLower(n.content));
  }

  /** Subsequence is transitive. */
  lemma {:induction false} SubseqTrans<T>(a: seq<T>, b: seq<T>, c: seq<T>)
    requires Seqs.SubseqOf(a, b) && Seqs.SubseqOf(b, c)
    ensures Seqs.SubseqOf(a, c)
    decreases |c|
  {
    if |a| > 0 {
      assert |b| > 0;
      if b[0] == c[0] && Seqs.SubseqOf(b[1..], c[1..]) {
        if a[0] == b[0] && Seqs.SubseqOf(a[1..], b[1..]) {
          SubseqTrans(a[1..], b[1..], c[1..]);
        } else {
          SubseqTrans(a, b[1..], c[1..]);
        }
      } else {
        SubseqTrans(a, b, c[1..]);
      }
    }
  }

  /** The newest-first order of `getProjectMemoryNotes` (ties keep insertion order). */
  predicate NewerOrSame(a: Entry<MemoryNote>, b: Entry<MemoryNote>) {
    a.value.createdAt >= b.value.createdAt
  }

  /** A note's creation time. */
  function NoteTime(e: Entry<MemoryNote>): nat {
    e.value.createdAt
  }

  /** The project's notes, newest first. */
  function NewestFirst(st: Store, pid: Key): (r: seq<Entry<MemoryNote>>)
    ensures Seqs.SortedBy(r, NewerOrSame)
    ensures multiset(r) == multiset(ProjectNotes(st, pid))
    ensures |r| == |ProjectNotes(st, pid)|
    ensures forall e :: e in r ==> IsRow(st.notes, e) && e.value.projectId == pid
    // notes created at the same time stay in insertion order
    ensures forall t :: Seqs.OfKey(r, NoteTime, t) == Seqs.OfKey(ProjectNotes(st, pid), NoteTime, t)
  {
    assert Seqs.Total(NewerOrSame);
    var r := Seqs.InsertionSort(ProjectNotes(st, pid), NewerOrSame);
    assert forall e :: e in r ==> e in multiset(ProjectNotes(st, pid));
    NewestFirstStable(ProjectNotes(st, pid));
    r
  }

  /** Sorting notes newest first keeps the notes of one creation time in order. */
  lemma NewestFirstStable(s: seq<Entry<MemoryNote>>)
    ensures forall t :: Seqs.OfKey(Seqs.InsertionSort(s, NewerOrSame), NoteTime, t) == Seqs.OfKey(s, NoteTime, t)
  {
    forall t: nat
      ensures Seqs.OfKey(Seqs.InsertionSort(s, NewerOrSame), NoteTime, t) == Seqs.OfKey(s, NoteTime, t)
    {
      Seqs.SortStable(s, NewerOrSame, NoteTime, t);
    }
  }


  /** `getProjectMemoryNotes`: the project's notes newest first, cut to `limit`
      when `limit` is present and non-zero (`slice(0, limit)`). */
  function GetProjectMemoryNotes(st: Store, pid: Key, limit: Option<int>): (r: seq<Entry<MemoryNote>>)
    ensures forall e :: e in r ==> IsRow(st.notes, e) && e.value.projectId == pid
    ensures Seqs.SortedBy(r, NewerOrSame)
    ensures |r| <= |NewestFirst(st, pid)| && r == NewestFirst(st, pid)[..|r|]
    ensures limit.None? || limit.value == 0 ==> multiset(r) == multiset(ProjectNotes(st, pid))
    ensures limit.Some? && limit.value > 0 ==> |r| <= limit.value
    ensures limit.Some? && limit.value > 0 && |r| < limit.value ==> |r| == |ProjectNotes(st, pid)|
  {
    var all := NewestFirst(st, pid);
    var r := if limit.Some? && limit.value != 0 then Seqs.SliceTo(all, limit.value) else all;
    Seqs.SortedPrefix(all, |r|, NewerOrSame);
    assert forall e :: e in r ==> e in all;
    r
  }

  /** In a newest-first list, every earlier note is at least as new as every later one. */
  lemma {:induction false} NewestFirstOrdered(s: seq<Entry<MemoryNote>>, i: nat, j: nat)
    requires Seqs.SortedBy(s, NewerOrSame)
    requires i <= j < |s|
    ensures s[i].value.createdAt >= s[j].value.createdAt
    decreases j - i
  {
    if i < j {
      NewestFirstOrdered(s, i + 1, j);
    }
  }

  /** In a newest-first list, a note in a prefix is at least as new as any note
      outside it. */
  lemma PrefixIsNewest(all: seq<Entry<MemoryNote>>, k: nat, e: Entry<MemoryNote>, x: Entry<MemoryNote>)
    requires Seqs.SortedBy(all, NewerOrSame) && k <= |all|
    requires e in all[..k] && x in all && x !in all[..k]
    ensures e.value.createdAt >= x.value.createdAt
  {
    var i :| 0 <= i < k && all[..k][i] == e;
    var j :| 0 <= j < |all| && all[j] == x;
    assert forall m :: 0 <= m < k ==> all[m] == all[..k][m];
    assert i < k <= j;
    NewestFirstOrdered(all, i, j);
  }

  /** A limited listing holds the newest notes: no left-out project note is newer
      than a listed one. */
  lemma LimitKeepsNewest(st: Store, pid: Key, n: nat, e: Entry<MemoryNote>, x: Entry<MemoryNote>)
    requires e in GetProjectMemoryNotes(st, pid, Some(n))
    requires x in ProjectNotes(st, pid) && x !in GetProjectMemoryNotes(st, pid, Some(n))
    ensures e.value.createdAt >= x.value.createdAt
  {
    var all := NewestFirst(st, pid);
    var r := GetProjectMemoryNotes(st, pid, Some(n));
    assert x in all by {
      assert x in multiset(ProjectNotes(st, pid));
      assert x in multiset(all);
    }
    PrefixIsNewest(all, |r|, e, x);
  }

  // ---------------------------------------------------------------------------
  // Git state

  /** `getGitState`: a cached state makes the project id one in use. */
  function GetGitState(st: Store, pid: Key): (r: Option<GitState>)
    ensures r.Some? ==> pid in ProjectIdsInUse(st)
    ensures r.Some? <==> pid in st.git
  {
    if pid in st.git then Some(st.git[pid]) else None
  }

  /** The state an unknown project starts from. */
  function DefaultGit(now: nat): GitState {
    GitState("main", 0, 0, None, now)
  }

  /** `updateGitState`: merges into the stored state, or into `main`/0/0/no commit
      for a project without one, and stamps it with `now`. */
  function UpdateGitState(st: Store, pid: Key, u: GitPatch, now: nat): (r: (Store, GitState))
    ensures GetGitState(r.0, pid) == Some(r.1)
    ensures forall q :: q != pid ==> GetGitState(r.0, q) == GetGitState(st, q)
    ensures r.0 == st.(git := r.0.git)
    ensures r.1.updatedAt == now
    ensures GetGitState(st, pid).None? ==>
      r.1 == GitState(u.branch.GetOr("main"), u.ahead.GetOr(0), u.behind.GetOr(0), u.lastCommit.GetOr(None), now)
    ensures GetGitState(st, pid).Some? ==> var g := st.git[pid];
      r.1 == GitState(u.branch.GetOr(g.branch), u.ahead.GetOr(g.ahead), u.behind.GetOr(g.behind),
                      u.lastCommit.GetOr(g.lastCommit), now)
  {
    var existing := if pid in st.git then st.git[pid] else DefaultGit(now);
    var g := MergeGit(existing, u, now);
    (st.(git := st.git[pid := g]), g)
  }

  // ---------------------------------------------------------------------------
  // Files

  /** `getFile`: the saved content, or `''` for a missing project or path; what
      reads back after a save is stated by `SaveFile`, and the listed size of a
      path is the length of what it reads by `ListFiles`. */
  function GetFile(st: Store, pid: Key, path: string): (r: string)
    ensures r != "" ==> pid in st.files && path in st.files[pid]
    ensures pid in st.files && path in st.files[pid] ==> r == st.files[pid][path]
  {
    if pid in st.files && path in st.files[pid] then st.files[pid][path] else ""
  }

  /** `saveFile`: creates the project's file map on first use and sets the path. */
  function SaveFile(st: Store, pid: Key, path: string, content: string): (r: Store)
    ensures GetFile(r, pid, path) == content
    ensures forall q, p :: (q != pid || p != path) ==> GetFile(r, q, p) == GetFile(st, q, p)
    ensures pid in r.files && path in r.files[pid]
    ensures forall q :: q in st.files ==> q in r.files && st.files[q].Keys <= r.files[q].Keys
    ensures r == st.(files := r.files)
  {
    var fs := if pid in st.files then st.files[pid] else map[];
    st.(files := st.files[pid := fs[path := content]])
  }

  /** `listFiles`: the size of every saved path of the project. */
  function ListFiles(st: Store, pid: Key): (r: map<string, nat>)
    ensures pid in st.files ==> r.Keys == st.files[pid].Keys
    ensures pid !in st.files ==> r == map[]
    ensures forall p :: p in r ==> r[p] == |GetFile(st, pid, p)|
  {
    if pid in st.files then map p | p in st.files[pid] :: |st.files[pid][p]| else map[]
  }

  /** Saving then listing shows the path with its new size. */
  lemma SaveThenList(st: Store, pid: Key, path: string, content: string)
    ensures var l := ListFiles(SaveFile(st, pid, path, content), pid);
      path in l && l[path] == |content|
  {
  }
}
