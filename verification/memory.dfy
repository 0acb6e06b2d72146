/** The three memory tiers the agent draws on: hot (the newest notes), warm
    (search hits) and cold (a session's full record), plus the notes written
    after a session and the daily digest. */
module Memory {
  import opened Wrappers
  import opened Schema
  import opened Storage
  import Seqs
  import Text

  /** The key notes are de-duplicated by. */
  function NoteId(e: Entry<MemoryNote>): Key {
    e.id
  }

  /** A project's notes never repeat a key, in insertion order or newest first. */
  lemma ProjectNotesDistinct(st: Store, pid: Key)
    ensures Seqs.DistinctKeys(ProjectNotes(st, pid), NoteId)
    ensures Seqs.DistinctKeys(NewestFirst(st, pid), NoteId)
  {
    var rows := Rows(st.notes);
    assert Seqs.DistinctKeys(rows, NoteId);
    Seqs.SubseqKeepsDistinct(ProjectNotes(st, pid), rows, NoteId);
    assert Seqs.Total(NewerOrSame);
    Seqs.SortKeepsDistinct(ProjectNotes(st, pid), NewerOrSame, NoteId);
  }

  /** `getHotMemory`: the five newest notes of the project (out of the ten newest
      it fetches). */
  function GetHotMemory(st: Store, pid: Key): (r: seq<Entry<MemoryNote>>)
    ensures |r| <= 5 && |r| <= |NewestFirst(st, pid)|
    ensures |r| == if |ProjectNotes(st, pid)| < 5 then |ProjectNotes(st, pid)| else 5
    ensures r == NewestFirst(st, pid)[..|r|]
    ensures forall e :: e in r ==> IsRow(st.notes, e) && e.value.projectId == pid
    ensures Seqs.DistinctKeys(r, NoteId)
  {
    var r := Seqs.SliceTo(GetProjectMemoryNotes(st, pid, Some(10)), 5);
    ProjectNotesDistinct(st, pid);
    r
  }

  /** `getWarmMemory`: the first three search hits, in insertion order. */
  function GetWarmMemory(st: Store, pid: Key, query: string): (r: seq<Entry<MemoryNote>>)
    ensures |r| <= 3 && |r| <= |SearchMemoryNotes(st, pid, query)|
    ensures r == SearchMemoryNotes(st, pid, query)[..|r|]
    ensures |r| < 3 ==> r == SearchMemoryNotes(st, pid, query)
    ensures forall e :: e in r ==>
      IsRow(st.notes, e) && e.value.projectId == pid && (query == "" || NoteMatches(e.value, Text.ToLower(query)))
  {
    var hits := SearchMemoryNotes(st, pid, query);
    Seqs.SliceToMembers(hits, 3);
    Seqs.SliceTo(hits, 3)
  }

  /** What `getColdMemory` loads for a session (test runs are not modelled). */
  datatype Cold = Cold(session: Option<Session>, changes: seq<Entry<FileChange>>)

  /** `getColdMemory`: nothing without a session id; otherwise the session (if
      any) and all its file changes. */
  function GetColdMemory(st: Store, sid: Option<Key>): (r: Option<Cold>)
    ensures r.None? <==> sid.None?
    ensures sid.Some? ==> r.value.session == GetSession(st, sid.value)
    ensures sid.Some? ==> forall e :: e in r.value.changes <==> IsRow(st.changes, e) && e.value.sessionId == sid.value
  {
    match sid
    case None => None
    case Some(id) => Some(Cold(GetSession(st, id), GetSessionFileChanges(st, id)))
  }

  /** The text of a session note (`Session <id>: <summary>`). */
  function SessionNoteText(sid: Key, summary: string): (r: string)
    ensures |r| >= |summary| && r[|r| - |summary|..] == summary
  {
    "Session " + Text.NatToString(sid) + ": " + summary
  }

  /** `addSessionMemory`: a note in the session's project, tagged `session` before
      the given tags and linked to the session; an unknown session throws. */
  function AddSessionMemory(st: Store, sid: Key, summary: string, tags: seq<string>, now: nat): (o: Outcome<Key>)
    ensures GetSession(st, sid).None? <==> o.result.Err?
    ensures o.result.Err? ==> o == Outcome(st, Err("Session not found"))
    ensures o.result.Ok? ==>
      && GetMemoryNote(st, o.result.value).None?
      && o.store == st.(notes := o.store.notes)
      && forall k :: k != o.result.value ==> GetMemoryNote(o.store, k) == GetMemoryNote(st, k)
    ensures o.result.Ok? ==>
      && GetMemoryNote(o.store, o.result.value).Some?
      && var n := GetMemoryNote(o.store, o.result.value).value;
      && n.projectId == st.sessions[sid].projectId
      && Text.Contains(n.content, summary)
      && |n.tags| == |tags| + 1 && n.tags[0] == "session" && n.tags[1..] == tags
      && n.links == [sid]
      && n.createdAt == now
  {
    match GetSession(st, sid)
    case None => Outcome(st, Err("Session not found"))
    case Some(s) =>
      var content := SessionNoteText(sid, summary);
      assert Text.At(content, summary, |content| - |summary|);
      var (st1, id) := CreateMemoryNote(st, MemoryNote(s.projectId, content, ["session"] + tags, [sid], 0), now);
      Outcome(st1, Ok(id))
  }

  /** `addProjectNote`: a free-standing project note without links. */
  function AddProjectNote(st: Store, pid: Key, content: string, tags: seq<string>, now: nat): (r: (Store, Key))
    ensures GetMemoryNote(st, r.1).None?
    ensures GetMemoryNote(r.0, r.1) == Some(MemoryNote(pid, content, tags, [], now))
    ensures r.0 == st.(notes := r.0.notes)
  {
    CreateMemoryNote(st, MemoryNote(pid, content, tags, [], 0), now)
  }

  /** What merging two tiers (each switched on by `h`, `w`) and cutting to `n`
      promises of its result `r`: no key twice, at most `n` entries, only
      entries of enabled tiers, kept in their tier order, the first tier in
      front and whole when `n` leaves room for it, every key of an enabled tier
      present unless the cut bites, and the cut dropping only the tail of the
      order-preserving de-duplication. */
  ghost predicate MergedTiers<T(!new), K>(r: seq<T>, h: bool, w: bool, hot: seq<T>, warm: seq<T>, key: T -> K, n: int) {
    var both := (if h then hot else []) + (if w then warm else []);
    && Seqs.SubseqOf(r, both)
    && |r| <= |Seqs.DedupBy(both, key)| && r == Seqs.DedupBy(both, key)[..|r|]
    && Seqs.DistinctKeys(r, key)
    && (n >= 0 ==> |r| <= n)
    && (forall e :: e in r ==> (h && e in hot) || (w && e in warm))
    && (!h && !w ==> r == [])
    && (h ==> forall i :: 0 <= i < |r| && i < |hot| ==> r[i] == hot[i])
    && (h && n >= |hot| ==> |r| >= |hot|)
    && (0 <= n && |r| < n ==>
          forall e :: (h && e in hot) || (w && e in warm) ==> key(e) in Seqs.Keys(r, key))
  }

  /** `searchMemory`: hot notes then warm hits (each tier only when enabled,
      both by default), the first occurrence of every note kept, cut to
      `maxResults` (10 by default). */
  function SearchMemory(st: Store, pid: Key, query: string,
                        includeHot: Option<bool>, includeWarm: Option<bool>, maxResults: Option<int>)
    : (r: seq<Entry<MemoryNote>>)
    ensures MergedTiers(r, includeHot.GetOr(true), includeWarm.GetOr(true),
                        GetHotMemory(st, pid), GetWarmMemory(st, pid, query), NoteId, maxResults.GetOr(10))
  {
    var hotTier := GetHotMemory(st, pid);
    var warmTier := GetWarmMemory(st, pid, query);
    var h, w, n := includeHot.GetOr(true), includeWarm.GetOr(true), maxResults.GetOr(10);
    MergeChosen(h, w, hotTier, warmTier, NoteId, n);
    Seqs.SliceTo(Seqs.DedupBy((if h then hotTier else []) + (if w then warmTier else []), NoteId), n)
  }

  /** `MergeTiers` with each tier switched on or off. */
  lemma MergeChosen<T(!new), K>(h: bool, w: bool, hot: seq<T>, warm: seq<T>, key: T -> K, n: int)
    requires Seqs.DistinctKeys(hot, key)
    ensures MergedTiers(Seqs.SliceTo(Seqs.DedupBy((if h then hot else []) + (if w then warm else []), key), n),
                        h, w, hot, warm, key, n)
  {
    var hs: seq<T> := if h then hot else [];
    var ws: seq<T> := if w then warm else [];
    assert Seqs.DistinctKeys(hs, key);
    MergeTiers(hs, ws, key, n);
    assert hs + ws == (if h then hot else []) + (if w then warm else []);
    assert forall e :: (h && e in hot) || (w && e in warm) ==> e in hs || e in ws;
    if !h && !w {
      assert hs + ws == [];
      assert Seqs.SubseqOf(Seqs.DedupBy(hs + ws, key), []);
    }
  }

  /** The merge keeps the warm tier's order: its reversal is no merge. */
  lemma ReversedWarmIsNoMerge()
    ensures !MergedTiers([2, 1], false, true, [], [1, 2], (x: int) => x, 10)
  {
  }

  /** The cut keeps the earlier warm note, never a later one in its place. */
  lemma CutKeepsEarlierWarm()
    ensures !MergedTiers([0, 2], true, true, [0], [1, 2], (x: int) => x, 2)
  {
    var id := (x: int) => x;
    Seqs.DedupKeepsDistinctPrefix([0, 1, 2], [], id);
    assert [0, 1, 2] + [] == [0] + [1, 2];
    assert Seqs.DedupBy([0] + [1, 2], id)[..2] == [0, 1];
  }

  /** The first tier, then the first occurrence of each key, cut to `n`: the
      result repeats no key, keeps the first tier in front and draws only from
      the two tiers. */
  lemma MergeTiers<T, K>(hot: seq<T>, warm: seq<T>, key: T -> K, n: int)
    requires Seqs.DistinctKeys(hot, key)
    ensures var r := Seqs.SliceTo(Seqs.DedupBy(hot + warm, key), n);
      // order is kept, and the cut only drops a tail of the de-duplication
      && Seqs.SubseqOf(r, hot + warm)
      && |r| <= |Seqs.DedupBy(hot + warm, key)| && r == Seqs.DedupBy(hot + warm, key)[..|r|]
      && Seqs.DistinctKeys(r, key)
      && (n >= 0 ==> |r| <= n)
      && (forall e :: e in r ==> e in hot || e in warm)
      && (forall i :: 0 <= i < |r| && i < |hot| ==> r[i] == hot[i])
      && (n >= |hot| ==> |r| >= |hot|)
      // nothing is lost unless the cut at `n` bites
      && (0 <= n && |r| < n ==> forall e :: e in hot || e in warm ==> key(e) in Seqs.Keys(r, key))
  {
    var unique := Seqs.DedupBy(hot + warm, key);
    Seqs.DedupKeepsDistinctPrefix(hot, warm, key);
    assert unique[..|hot|] == hot;
    var r := Seqs.SliceTo(unique, n);
    Seqs.SubseqPrefix(unique, hot + warm, |r|);
    Seqs.SliceToMembers(unique, n);
    forall e | e in r
      ensures e in hot || e in warm
    {
      assert e in unique;
      var j :| 0 <= j < |hot + warm| && (hot + warm)[j] == e && Seqs.IsFirstOfKey(hot + warm, key, j);
      if j < |hot| {
        assert hot[j] == e;
      } else {
        assert warm[j - |hot|] == e;
      }
    }
    assert Seqs.DistinctKeys(r, key) by {
      forall i, j | 0 <= i < j < |r|
        ensures key(r[i]) != key(r[j])
      {
        assert r[i] == unique[i] && r[j] == unique[j];
      }
    }
    if n >= 0 {
      Seqs.SliceToBound(unique, n);
      if |r| < n {
        assert r == unique;
        forall e | e in hot || e in warm
          ensures key(e) in Seqs.Keys(r, key)
        {
          assert e in hot + warm;
          assert key(e) in Seqs.Keys(hot + warm, key);
        }
      }
    }
  }

  // ---------------------------------------------------------------------------
  // Daily distillation

  /** The session was created within the day window (both ends included). */
  predicate InWindow(e: Entry<Session>, start: nat, end: nat) {
    start <= e.value.createdAt <= end
  }

  /** All files of the sessions' scopes, in order (`flatMap`). */
  function ScopeFiles(ss: seq<Entry<Session>>): seq<string> {
    if |ss| == 0 then []
    else (if ss[0].value.scope.Some? then ss[0].value.scope.value.files else []) + ScopeFiles(ss[1..])
  }

  function SessionIds(ss: seq<Entry<Session>>): (r: seq<Key>)
    ensures |r| == |ss| && forall i :: 0 <= i < |ss| ==> r[i] == ss[i].id
  {
    seq(|ss|, i requires 0 <= i < |ss| => ss[i].id)
  }

  /** The first fifty characters of every prompt, one per session. */
  function Goals(ss: seq<Entry<Session>>): (r: seq<string>)
    ensures |r| == |ss|
    ensures forall i :: 0 <= i < |ss| ==>
      var p := ss[i].value.prompt;
      && |r[i]| <= 50 && |r[i]| <= |p| && r[i] == p[..|r[i]|]
      && (|p| <= 50 ==> r[i] == p)
  {
    seq(|ss|, i requires 0 <= i < |ss| => Seqs.SliceTo(ss[i].value.prompt, 50))
  }

  /** The digest text of `distillDailySessions`; `day` is the date part of the
      ISO timestamp. It opens with the day and mentions every goal and every
      scope file of the day's sessions. */
  function DigestText(day: string, ss: seq<Entry<Session>>): (r: string)
    ensures var h := "Daily summary for " + day; |r| >= |h| && r[..|h|] == h
    ensures forall i :: 0 <= i < |ss| ==> Text.Contains(r, Goals(ss)[i])
    ensures forall f :: f in ScopeFiles(ss) ==> Text.Contains(r, f)
  {
    var h := "Daily summary for " + day;
    var head := h + ":\n" + Text.NatToString(|ss|) + " sessions completed.\n" + "Goals: ";
    var tail := "\n" + "Files modified: ";
    var r := head + Text.Join(Goals(ss), "; ") + tail + Text.Join(ScopeFiles(ss), ", ");
    DigestMentions(head, Goals(ss), tail, ScopeFiles(ss));
    assert r[..|h|] == h;
    r
  }

  /** A text made of a head, the joined goals, a middle and the joined files
      mentions every goal and every file. */
  lemma DigestMentions(head: string, goals: seq<string>, tail: string, files: seq<string>)
    ensures var r := head + Text.Join(goals, "; ") + tail + Text.Join(files, ", ");
      && (forall i :: 0 <= i < |goals| ==> Text.Contains(r, goals[i]))
      && (forall f :: f in files ==> Text.Contains(r, f))
  {
    var g := Text.Join(goals, "; ");
    var fs := Text.Join(files, ", ");
    var r := head + g + tail + fs;
    assert r == head + g + (tail + fs);
    forall i | 0 <= i < |goals|
      ensures Text.Contains(r, goals[i])
    {
      Text.JoinContains(goals, "; ", i);
      Text.ContainsWithin(head, g, tail + fs, goals[i]);
    }
    assert r == (head + g + tail) + fs + "";
    forall f | f in files
      ensures Text.Contains(r, f)
    {
      var k :| 0 <= k < |files| && files[k] == f;
      Text.JoinContains(files, ", ", k);
      Text.ContainsWithin(head + g + tail, fs, "", f);
    }
  }

  /** `distillDailySessions`: one digest note for the project's sessions created
      within `[start, end]`, linked to exactly those sessions; none when there
      are none. The local-time window is computed by the caller. */
  function DistillDailySessions(st: Store, pid: Key, day: string, start: nat, end: nat, now: nat): (r: (Store, Option<Key>))
    ensures r.1.None? <==> forall e :: e in GetProjectSessions(st, pid) ==> !InWindow(e, start, end)
    ensures r.1.None? ==> r.0 == st
    ensures r.1.Some? ==>
      && r.0 == st.(notes := r.0.notes)
      && GetMemoryNote(st, r.1.value).None?
      && GetMemoryNote(r.0, r.1.value).Some?
      && var n := GetMemoryNote(r.0, r.1.value).value;
      && n.projectId == pid
      && n.tags == ["daily-summary", day]
      && n.createdAt == now
      && (forall k :: k in n.links <==>
            exists e :: e in GetProjectSessions(st, pid) && e.id == k && InWindow(e, start, end))
  {
    var daily := DailySessions(st, pid, start, end);
    if |daily| == 0 then
      (st, None)
    else
      assert daily[0] in daily;
      var links := SessionIds(daily);
      DailyLinks(st, pid, start, end);
      var (st1, id) := CreateMemoryNote(st, MemoryNote(pid, DigestText(day, daily), ["daily-summary", day], links, 0), now);
      (st1, Some(id))
  }

  /** The digest links the sessions of the window and nothing else. */
  lemma DailyLinks(st: Store, pid: Key, start: nat, end: nat)
    ensures forall k :: k in SessionIds(DailySessions(st, pid, start, end)) <==>
      exists e :: e in GetProjectSessions(st, pid) && e.id == k && InWindow(e, start, end)
  {
    var daily := DailySessions(st, pid, start, end);
    var links := SessionIds(daily);
    forall k
      ensures k in links <==> exists e :: e in GetProjectSessions(st, pid) && e.id == k && InWindow(e, start, end)
    {
      if k in links {
        var i :| 0 <= i < |links| && links[i] == k;
        assert daily[i] in daily;
      }
      if exists e :: e in GetProjectSessions(st, pid) && e.id == k && InWindow(e, start, end) {
        var e :| e in GetProjectSessions(st, pid) && e.id == k && InWindow(e, start, end);
        var i :| 0 <= i < |daily| && daily[i] == e;
        assert links[i] == k;
      }
    }
  }

  /** The project's sessions created within the window, in insertion order. */
  function DailySessions(st: Store, pid: Key, start: nat, end: nat): (r: seq<Entry<Session>>)
    ensures forall e :: e in r <==> e in GetProjectSessions(st, pid) && InWindow(e, start, end)
  {
    Seqs.Filter(GetProjectSessions(st, pid), e => InWindow(e, start, end))
  }
}
