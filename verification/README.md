# Reme's strict-scope agent workflow in Dafny

Reme is an AI coding workspace. A user states a goal for a project. The agent
turns it into a *scope*: the files and symbols it may touch, with a goal, a
forbidden list and a budget. The scope is checked against the project's
settings, and the agent either asks for permission or proposes a patch made of
hunks. The user approves, applies or reverts those hunks. Around that workflow
sit an in-memory store, a three-tier project memory, a model router with a
local-to-cloud fallback, and several small parsers: code blocks in a chat reply,
the indexer's ignore and code-file rules, commit messages and branch names, and
the editor's tab list.

This project restates that logic as pure Dafny functions over immutable
datatypes and proves what the code promises. Every language-model answer, every
HTTP answer and every timestamp is a parameter, so each operation is a
deterministic function of its inputs.

| module | file | models |
|---|---|---|
| `Wrappers` | wrappers.dfy | `Option`, `Result` and an `Outcome` (store plus result) |
| `Text` | text.dfy | JavaScript string built-ins: `toLowerCase`, `includes`/`indexOf`, `trim`, `split`/`join`, `split(c).pop()`, decimal rendering of numbers |
| `Seqs` | seqs.dfy | `filter`, `slice(0, n)`, first-occurrence dedup, a stable sort |
| `Schema` | schema.dfy | the entities (project, settings, scope, session, hunk, file change, memory note, git state) and the object-spread merges |
| `Storage` | storage.dfy | `MemStorage` |
| `ScopeCheck` | scope.dfy | the server's `validateScope` |
| `Patches` | patches.dfy | hunk renaming in `proposePatch` |
| `Agent` | agent.dfy | `AgentService` |
| `ClientAgent` | client_agent.dfy | the browser's `OpenAIService` |
| `SessionRoutes` | session_routes.dfy | the approve/apply/revert handlers and project creation |
| `Memory` | memory.dfy | `MemoryService` |
| `Models` | models.dfy | `ModelRouter` |
| `Templates` | templates.dfy | the template routes |
| `CodeBlocks` | code_blocks.dfy | code-block extraction in the session route |
| `SessionReply` | session_reply.dfy | the session route's background reply |
| `Indexer` | indexer.dfy | `shouldIgnore`, `isCodeFile`, `buildFileTree` |
| `GitClient` | git_client.dfy | `generateCommitMessage`, the branch-name sanitiser |
| `Ide` | ide.dfy | the editor's tab list |

Each table of the store is a sequence, and a record's key is its position. No
record is ever deleted, and a `Map` iterates in insertion order, so "a fresh
random UUID" becomes "the next index" and "`Array.from(map.values())`" becomes
"the table in index order". A thrown `Error` becomes an `Err` carrying the
error's message.

Two behaviours of the code are easy to misread, and the model keeps both:

- Approving with extra files appends them to the scope's file list as they
  are. It does not take a union, so a file can appear twice (`SessionRoutes.Widen`).
- A patch failure during `continueSession` is not caught there. The session stays
  active rather than failed (`Agent.ContinueSession`).

## Model

| member | source | states |
|---|---|---|
| Storage.Rows | server/storage.ts:93-95 | listing a table yields every stored record exactly once with its own key, in insertion order |
| Storage.Add | server/storage.ts:74-83 | an insert hands out a key that was unused before; that key now reads back the record, and every other key reads as before |
| Storage.Modify | server/storage.ts:85-91 | a write-back changes the record under that one key and no other |
| Storage.CreateProject | server/storage.ts:74-83 | the new project is stored under a key that no project, git state, saved file, session or memory note used before, and is stamped with the creation time; other projects and all other tables are unchanged |
| Storage.FreshProjectKey | server/storage.ts:75 | the key stands in for `randomUUID()`: it lies past the project table and is referred to by no git state, file set, session or memory note |
| Storage.GetProject | server/storage.ts:70-72 | a found project lies inside the table, and no key at or past the fresh key finds one |
| Storage.GetSession | server/storage.ts:97-99 | a lookup finds a session iff the listing holds that key with that session |
| Storage.UpdateProject | server/storage.ts:85-91 | fails with "Project not found" exactly when the key is absent; otherwise the record becomes the spread merge of the update, and nothing else changes |
| Storage.CreateSession | server/storage.ts:101-110 | the new session is stored under a previously unused key and stamped with the creation time; nothing else changes |
| Storage.UpdateSession | server/storage.ts:112-118 | fails with "Session not found" exactly when the key is absent; otherwise the record is merged and every other record is untouched |
| Storage.GetProjectSessions | server/storage.ts:120-122 | returns exactly the sessions whose project key matches, in insertion order |
| Storage.CreateFileChange | server/storage.ts:164-173 | the new change is stored under a previously unused key and stamped; nothing else changes |
| Storage.UpdateFileChange | server/storage.ts:175-181 | fails with "File change not found" exactly when the key is absent; otherwise the record is merged and nothing else changes |
| Storage.GetSessionFileChanges | server/storage.ts:183-185 | returns exactly the changes whose session key matches, in insertion order |
| Storage.CreateMemoryNote | server/storage.ts:128-137 | the new note is stored under a previously unused key and stamped; nothing else changes |
| Storage.ProjectNotes | server/storage.ts:140-141 | the notes kept are exactly the project's notes, in insertion order |
| Storage.SearchMemoryNotes | server/storage.ts:139-150 | a note is listed iff it belongs to the project and either the query is empty, or its lower-cased content or one of its lower-cased tags includes the lower-cased query; order is insertion order |
| Storage.EmptyQueryMatchesAll | server/storage.ts:143 | the empty query needs no special case: every note matches it |
| Storage.NewestFirst | server/storage.ts:153-155 | the project's notes are re-ordered, none lost or added, so that creation times never increase; notes created at the same time keep their insertion order, as the stable `Array.sort` keeps them |
| Storage.NewestFirstStable | server/storage.ts:155 | sorting notes newest first leaves the notes of each creation time in their input order |
| Storage.GetProjectMemoryNotes | server/storage.ts:152-158 | a prefix of the newest-first notes; an absent or zero limit keeps them all; a positive limit bounds the length, and a shorter result means every note was kept |
| Storage.NewestFirstOrdered | server/storage.ts:155 | in a newest-first list, an earlier note is never older than a later one |
| Storage.PrefixIsNewest | server/storage.ts:155-157 | a note inside a prefix of a newest-first list is at least as new as any note outside the prefix |
| Storage.LimitKeepsNewest | server/storage.ts:152-158 | a limited listing keeps the newest notes: no project note that was cut off is newer than any note kept |
| Storage.UpdateGitState | server/storage.ts:191-203 | an absent project starts from branch main, 0 ahead, 0 behind and no last commit; the update is merged over that or over the stored state, the time is refreshed, and no other project's state changes |
| Storage.GetGitState | server/storage.ts:187-189 | a git state is found iff one is stored for the project, and only for a project key in use |
| Storage.SaveFile | server/storage.ts:240-246 | reading the saved path back gives the new content; every other project and path reads as before; paths never disappear |
| Storage.GetFile | server/storage.ts:248-252 | a stored path reads back its content; a missing project or path reads as the empty string |
| Storage.ListFiles | server/storage.ts:254-263 | lists exactly the project's saved paths, each with the length of its content; an unknown project lists nothing |
| Storage.SaveThenList | server/storage.ts:240-263 | after a save, the listing shows the path with the new content's length |
| Schema.SessionMergeLaws | server/storage.ts:112-118 | merging an empty update changes nothing; merging the same update twice equals merging it once; two merges in a row equal one merge of the combined update |
| Schema.MergeSession | server/storage.ts:112-118 | a merged session keeps its project, prompt and creation time; each of status, scope, diff summary and messages takes the update's value when the update sets it and keeps its own otherwise; the empty update changes nothing |
| Schema.MergeProject | server/storage.ts:85-91 | a merged project keeps its creation time; each of name, repository URL, default branch and settings takes the update's value when set and keeps its own otherwise; the empty update changes nothing |
| Schema.ProjectMergeIdempotent | server/storage.ts:88 | merging the same project update twice is merging it once |
| Schema.MergeFileChange | server/storage.ts:175-181 | a merged change keeps its session, path, kind and creation time; hunks and applied take the update's value when set and keep their own otherwise |
| Schema.FileChangeMergeLaws | server/storage.ts:178 | the empty update changes nothing, an update applied twice acts once, and two updates in a row act as their combination |
| Schema.MergeGit | server/storage.ts:191-203 | a merged git state is stamped with the current time; each of branch, ahead, behind and last commit takes the update's value when set and keeps its own otherwise; the empty update only restamps |
| Schema.GitMergeLaws | server/storage.ts:200 | two git updates in a row act as their combination stamped with the later time |
| ScopeCheck.ForbiddenFiles | server/services/agent.ts:125-127 | the offending files are exactly the scope files that contain some forbidden entry as a plain substring, kept in scope order |
| ScopeCheck.Decide | server/services/agent.ts:116-138 | permission is needed iff the file count is over a set, non-zero ceiling or some file is forbidden; the ceiling rule wins, and its reason and request name the count; otherwise the reason lists every offending file |
| ScopeCheck.ReasonMentionsCounts | server/services/agent.ts:119 | the file-count reason includes both the scope's file count and the ceiling |
| ScopeCheck.ReasonNamesCount | server/services/agent.ts:119 | the file-count reason includes the scope's file count |
| ScopeCheck.ReasonNamesCeiling | server/services/agent.ts:119 | the file-count reason includes the configured ceiling |
| ScopeCheck.ValidateScope | server/services/agent.ts:111-139 | an unknown project has no settings, so every scope is allowed; otherwise the decision follows the project's settings |
| ScopeCheck.EmptyEntryFlagsAll | server/services/agent.ts:125-127 | an empty forbidden entry flags every file of the scope |
| ScopeCheck.NodeModulesEntryIsLiteral | server/services/agent.ts:126 | the entry node_modules/** is no wildcard: it flags a file iff the file literally contains it, so only paths with `**` in them |
| ScopeCheck.NodeModulesPathNotFlagged | server/services/agent.ts:126 | an ordinary file under node_modules/ is not flagged by that entry |
| ScopeCheck.RuleOrder | server/services/agent.ts:116-138 | a scope over the ceiling gets the file-count request even when it also touches forbidden files; a scope breaking neither rule is allowed |
| Patches.NormaliseHunks | server/services/agent.ts:197-202 | every hunk gets the id path-index-timestamp and is unapproved; its count, order and every other field are kept |
| Patches.Normalise | server/services/agent.ts:196-204 | the summary and the files (path, change type, order) are kept; each file's hunks are renamed and unapproved |
| Patches.NormaliseIdempotent | server/services/agent.ts:196-202 | processing an already processed patch again, with the same timestamp, changes nothing |
| Patches.HunkIdInjective | server/services/agent.ts:199 | with one timestamp, a hunk id determines the file path and the hunk index |
| Patches.NormalisedIdsDistinct | server/services/agent.ts:197-202 | after processing, two different hunks never share an id when the patch's file paths are distinct |
| Patches.SplitAtLast | server/services/agent.ts:199 | the last `-` of an id splits it uniquely, because the rendered numbers contain no `-` |
| Agent.CreateIntent | server/services/agent.ts:66-109 | the model's scope is passed through; a failure is re-raised under "Intent creation failed: " |
| Agent.ProposePatch | server/services/agent.ts:141-208 | succeeds iff the model answered; the summary and file count are kept and every hunk is unapproved and renamed; a failure is re-raised under "Patch generation failed: " |
| Agent.CreateChanges | server/services/agent.ts:39-46 | exactly one file change is appended per patch file, in order, carrying its path, type and hunks; existing changes are kept |
| Agent.ProcessSession | server/services/agent.ts:13-64 | only sessions and file changes are written, and changes only appended. An unknown session fails with the store's error. A failed intent or patch marks the session failed and re-raises, creating no change. A scope needing permission parks the session as pending approval with the scope, creating no change. Success creates one change per patch file and completes the session with the patch summary |
| Agent.MarkFailed | server/services/agent.ts:60-63 | the `catch` marks the session failed and re-raises the error, touching no other session or table; for an unknown session the store's "Session not found" escapes instead |
| Agent.ContinueSession | server/services/agent.ts:210-236 | an unknown session is a no-op; otherwise the session is made active with the new scope, then completed with the patch summary and one change per patch file; a generation failure escapes and leaves it active |
| Agent.ContinueIgnoresSettings | server/services/agent.ts:210-236 | continuing never re-validates: with the project table replaced, the result, the stored sessions and the stored changes are the same, and the store differs only in that table |
| Agent.UpdateSessionIgnoresProjects | server/storage.ts:112-118 | a session update succeeds or fails alike whatever the project table holds, and writes the same sessions |
| Agent.CreateChangesIgnoresProjects | server/services/agent.ts:223-230 | appending the patch's changes gives the same change table whatever the project table holds |
| Agent.GatherContext | server/services/agent.ts:238-252 | one entry per scope file, in order, holding the file's content, or the empty text when it cannot be read |
| ClientAgent.CreateIntent | client/src/lib/openai.ts:88-112 | succeeds iff the fetch gave a parsed scope; a non-OK status fails with "Intent creation failed: OpenAI request failed: " and the status text; any other error with the intent prefix and its message |
| ClientAgent.ProposePatch | client/src/lib/openai.ts:161-195 | the browser post-processes and prefixes failures exactly as the server agent does |
| ClientAgent.SomeIncluded | client/src/lib/openai.ts:216 | the scan is true iff some forbidden entry is a substring of the file |
| ClientAgent.ForbiddenFilesStep | client/src/lib/openai.ts:215-217 | scanning one more file extends the offending list by that file, or by nothing |
| ClientAgent.CollectForbidden | client/src/lib/openai.ts:215-217 | the loop collects exactly the server's offending-file list |
| ClientAgent.ValidateScope | client/src/lib/openai.ts:201-229 | the browser check decides identically to the server check for every scope and every settings object |
| SessionRoutes.Widen | server/routes-backup.ts:149-153 | the approved scope's files and symbols are the old lists followed by the added ones, with missing lists read as empty and no dedup; goal, forbidden list and budget are kept |
| SessionRoutes.Approve | server/routes-backup.ts:138-168 | an unknown session gets a 404 and nothing changes; with allow the session stores the widened scope; without it the session is marked failed and its scope kept; no other session changes |
| SessionRoutes.ApproveThenContinue | server/routes-backup.ts:147-158 | an approval followed by its continuation ends with the session completed under the widened scope |
| SessionRoutes.SelectHunks | server/routes-backup.ts:185-188 | every hunk is approved iff its id is selected, so earlier approvals outside the selection are withdrawn; all other fields are kept |
| SessionRoutes.ApproveAllHunks | server/routes-backup.ts:192-195 | every hunk is approved and nothing else changes |
| SessionRoutes.UpdateSessionChanges | server/routes-backup.ts:182-198 | the loop over a session's changes updates exactly that session's changes, each by its own update, and leaves all others alone |
| SessionRoutes.ApplyPatch | server/routes-backup.ts:183-196 | merged into a change, the update keeps the hunk count, order and every hunk field but approval; with a selection a hunk is approved iff its id is selected and applied is untouched; without one every hunk is approved and the change is applied |
| SessionRoutes.RevertPatch | server/routes-backup.ts:218 | merged into a change, the update clears applied and changes nothing else |
| SessionRoutes.Apply | server/routes-backup.ts:170-211 | an unknown session gets a 404 and nothing changes. Otherwise the session is completed, other sessions' changes are untouched, and each change keeps its hunks' count, order and other fields. A selection sets each approval to membership and leaves applied alone; no selection approves all and marks applied |
| SessionRoutes.ApplyAllIdempotent | server/routes-backup.ts:190-200 | applying everything twice leaves the store as applying it once |
| SessionRoutes.Revert | server/routes-backup.ts:213-225 | clears applied on every change of the session and changes nothing else, whatever the session id |
| SessionRoutes.CreateProjectWithGit | server/routes-backup.ts:65-81 | the project is stored under a fresh key; its git state is on the default branch, or main when that is empty or absent, with 0 ahead, 0 behind and no last commit; the key was unused by any git state or file set, so the project starts with no files; no other project's state changes |
| Memory.ProjectNotesDistinct | server/services/memory.ts:8 | a project's notes never repeat a key, in insertion order or newest first |
| Memory.GetHotMemory | server/services/memory.ts:5-13 | hot memory is the first min(5, note count) of the project's notes newest first, all distinct |
| Memory.GetWarmMemory | server/services/memory.ts:15-23 | warm memory is a prefix of the search hits, at most 3 long, and all of them when there are fewer than 3 |
| Memory.GetColdMemory | server/services/memory.ts:25-40 | nothing without a session id; otherwise the session, if any, and exactly its file changes |
| Memory.SessionNoteText | server/services/memory.ts:48 | the note text ends with the summary |
| Memory.AddSessionMemory | server/services/memory.ts:42-54 | fails with "Session not found" exactly for an unknown session and then changes nothing; otherwise one new note belongs to the session's project, contains the summary, has the tags session followed by the given ones, and links only that session |
| Memory.AddProjectNote | server/services/memory.ts:56-63 | stores one note with the given content and tags and no links under a fresh key |
| Memory.SearchMemory | server/services/memory.ts:65-90 | the result is the order-preserving de-duplication by id of the enabled tiers (hot, then warm) with only a tail cut off: a subsequence of the tiers in order, no note twice, at most the limit (10 by default), the hot notes first and whole when the limit leaves room, empty with both tiers off, and holding every note of every enabled tier when shorter than the limit |
| Memory.MergeTiers | server/services/memory.ts:84-89 | dedup by id then truncation yields a prefix of the order-preserving de-duplication, a subsequence of first tier then second, with the distinct first tier in front, no key twice, the limit respected, and no key of either tier lost unless the limit cuts it off |
| Memory.MergeChosen | server/services/memory.ts:72-89 | the same with each tier switched on or off: only enabled tiers contribute, in their order, every key of an enabled tier survives unless the limit cuts it off, and with both off the result is empty |
| Memory.ReversedWarmIsNoMerge | server/services/memory.ts:84-89 | with hot off, the warm notes 1, 2 cannot come out as 2, 1 |
| Memory.CutKeepsEarlierWarm | server/services/memory.ts:84-89 | hot 0 and warm 1, 2 cut to two cannot yield 0, 2: the cut keeps the earlier warm note |
| Memory.SessionIds | server/services/memory.ts:118 | the links are the session ids in order |
| Memory.DailySessions | server/services/memory.ts:101-104 | picks exactly the project's sessions created inside the day window, both ends included |
| Memory.DailyLinks | server/services/memory.ts:101-118 | the digest links exactly the sessions inside the window |
| Memory.Goals | server/services/memory.ts:111 | one goal per session, in order; each is a prefix of at most 50 characters of the session's prompt, and the whole prompt when it is no longer |
| Memory.DigestText | server/services/memory.ts:109-112 | the digest opens with "Daily summary for " and the day, and mentions every goal and every scope file of the day's sessions |
| Memory.DigestMentions | server/services/memory.ts:111-112 | each joined goal and each joined file occurs in the assembled digest |
| Memory.DistillDailySessions | server/services/memory.ts:92-120 | with no session in the window no note is created and the store is unchanged; otherwise one new note of the project, tagged daily-summary and the day, links exactly the sessions in the window |
| Models.Lookup | server/services/models.ts:144 | a registry lookup finds an entry iff the key is registered, and returns that entry's model |
| Models.AvailableModels | server/services/models.ts:226-228 | the models are the registry's values in insertion order |
| Models.NamedEntries | server/services/models.ts:54-120 | the keys claude-sonnet-4, claude-3-7-sonnet and gpt-4o-mini resolve to their registered configurations |
| Models.Candidates | server/services/models.ts:129-132 | a model is a candidate iff it has the capability a request needs and a window of at least its token estimate |
| Models.LocalOnly | server/services/models.ts:136 | keeps exactly the local models |
| Models.FirstLocalFit | server/services/models.ts:135-139 | no result iff no registered model is local and fits; otherwise the result is the first such model in registry order |
| Models.LocalCandidatesHead | server/services/models.ts:129-139 | the first local candidate is the first registry model that is local and fits the request |
| Models.RouteRequest | server/services/models.ts:122-149 | a low-complexity task that allows local models gets the first fitting local model when there is one; otherwise a high complexity or urgency gets claude-sonnet-4 and all else claude-3-7-sonnet; preferLocal false never yields a local model |
| Models.SmallCodeTaskRunsLocally | server/services/models.ts:94-101 | a 500-token low-complexity code task is routed to codegemma:7b |
| Models.UrgentCompletionIgnoresCapabilities | server/services/models.ts:143-145 | an urgent completion task gets claude-sonnet-4 although that model cannot do completion |
| Models.OutputCap | server/services/models.ts:156 | the requested output cap never exceeds the model's window; an absent or zero request asks for min(4000, window) |
| Models.RequestCap | server/services/models.ts:166-172 | an OpenAI request with a caller `max_tokens` asks for exactly that; every other request asks for the output cap |
| Models.FromCloud | server/services/models.ts:160-178 | a cloud answer is returned with its text and token count; a thrown error escapes |
| Models.GenerateCompletion | server/services/models.ts:151-203 | an unserved provider fails with "Unsupported provider: " and its name; a cloud call is passed through with the request's cap, where a caller's `max_tokens` replaces the OpenAI cap; a local answer reports 0 tokens; a failed local call is retried once on gpt-4o-mini with the same options, or fails as unsupported without OpenAI |
| Models.CapWithinWindow | server/services/models.ts:156 | without a caller `max_tokens` the request fits the model's window, and a fallback request fits gpt-4o-mini's 128000 tokens |
| Models.CallerMaxTokensEscapesCap | server/services/models.ts:166-172 | a caller `max_tokens` of 500000 reaches gpt-4o-mini unchanged, past its 128000-token window |
| Models.NoSecondFallback | server/services/models.ts:195-199 | when the fallback fails too, whatever the options, its error escapes: no third attempt |
| Templates.ListTemplates | server/routes.ts:118-136 | a template is listed iff it passes the category filter (absent or all keeps everything, otherwise exact equality) and the case-insensitive search on name, description or a tag; order is kept |
| Templates.ListAll | server/routes.ts:123-127 | category all or an empty search keeps the whole list |
| Templates.FindTemplate | server/routes.ts:191 | finds the first template with the id, and fails iff none has it |
| Templates.GetTemplate | server/routes.ts:143-154 | fails with "Template not found" iff no template has the id; otherwise returns a template with that id |
| Templates.CreateFromTemplate | server/routes.ts:156-196 | an unknown id changes nothing; otherwise one project named after the template, with branch main and the default settings, is stored under a fresh key, and that template's download count alone rises by one |
| Templates.CreateCountsOneDownload | server/routes.ts:190-194 | the total download count rises by exactly one on success and not at all otherwise |
| Templates.TotalDownloadsUpdate | server/routes.ts:193 | replacing one template changes the total download count by the difference |
| Templates.TemplateProjectRules | server/routes.ts:168-174 | a template project asks permission for more than 50 files and allows any scope of at most 50 files that touches no forbidden entry |
| CodeBlocks.NextFence | server/routes.ts:546 | a fence found is three backticks at or after the starting point |
| CodeBlocks.NextFenceIsIndexOf | server/routes.ts:546 | the fence search is the leftmost occurrence search for three backticks |
| CodeBlocks.NextFenceFinds | server/routes.ts:546 | the first fence after the start is the one found |
| CodeBlocks.NextFenceFirst | server/routes.ts:546 | no fence lies between the start and the fence found |
| CodeBlocks.FencedBlocks | server/routes.ts:546 | every block found is at least six characters long, so a text yields at most a sixth of its length in blocks |
| CodeBlocks.BlocksAreFenced | server/routes.ts:546 | every block opens and closes with a fence and holds no fence in between: the match is non-greedy |
| CodeBlocks.BlockShape | server/routes.ts:546 | a block runs from a fence to the very next one |
| CodeBlocks.NoFenceNoBlocks | server/routes.ts:544-547 | a reply without a fence yields no block |
| CodeBlocks.SingleBlock | server/routes.ts:546 | a body without backticks between two fences is one block |
| CodeBlocks.Inner | server/routes.ts:550 | the content lines are all lines but the first and the last |
| CodeBlocks.InnerText | server/routes.ts:549-550 | the content is the block text strictly between the fence lines, or empty for a block of fewer than three lines |
| CodeBlocks.FindMarkerLine | server/routes.ts:558-560 | finds the first content line holding filename:, file: or path:, and none iff no line does |
| CodeBlocks.SkipSpaces | server/routes.ts:563 | skips exactly the white space run |
| CodeBlocks.TokenEnd | server/routes.ts:563 | spans exactly the run of characters that are neither white space nor a comma |
| CodeBlocks.MarkerToken | server/routes.ts:563-566 | a name found is a non-empty run of such characters taken from the line |
| CodeBlocks.LanguageDefault | server/routes.ts:567-575 | without a marker line the name follows the lower-cased fence line: html, then javascript or js, then css, then python or py, else untitled.txt; the error path of the request's `catch` (routes.ts:635-637) knows only html; each name is chosen only when its language word is present |
| CodeBlocks.JsonFenceIsScript | server/routes.ts:569-570 | a json fence names the file script.js, because json includes js |
| CodeBlocks.FileName | server/routes.ts:552-575 | a marker line decides the name even when no name follows its marker (then untitled.txt); otherwise the fence line's language decides; the name is never empty |
| CodeBlocks.LineEnd | server/routes.ts:578 | stops at the first line terminator |
| CodeBlocks.MarkerLineEnd | server/routes.ts:578 | a marker-line match from a line start is non-empty, stays inside the text and contains a // |
| CodeBlocks.StripMarkerLines | server/routes.ts:578 | dropping marker lines never lengthens the content |
| CodeBlocks.NoCommentKeepsContent | server/routes.ts:578 | content without a // loses nothing |
| CodeBlocks.StripOnlyDeletes | server/routes.ts:578 | stripping only deletes characters |
| CodeBlocks.BlockFile | server/routes.ts:548-578 | each block is saved under its resolved name with trimmed content; content with no // is just the trimmed inner text |
| CodeBlocks.TrimIdempotent | server/routes.ts:578 | trimming twice equals trimming once |
| CodeBlocks.ExtractFiles | server/routes.ts:546-587 | exactly one save per fenced block, in reply order |
| CodeBlocks.LastWrite | server/routes.ts:582 | a path has a last write iff some save targets it |
| CodeBlocks.LastWriteIsLast | server/routes.ts:582 | the last write is the content of the last save to that path |
| CodeBlocks.SaveAll | server/routes.ts:548-587 | after the saves each path of the project holds its last saved content, or its old one, and other projects are untouched |
| CodeBlocks.SaveAllSeesOnlyFiles | server/routes.ts:579-586 | the saves depend on the file table alone: two stores with the same files end with the same files |
| CodeBlocks.SavedFromLastBlock | server/routes.ts:548-587 | a block's file ends up holding the content of the last block with the same name |
| SessionReply.ChooseCanned | server/routes.ts:435 | the three.js scene is chosen iff the lower-cased prompt mentions three.js or 3d |
| SessionReply.FinalReply | server/routes.ts:520-541 | the completion is kept iff it succeeded with non-empty text; otherwise the canned reply |
| SessionReply.Finish | server/routes.ts:543-604 | the files of the reply's blocks are saved as the block extraction says; exactly the reply message is appended to the stored messages and the session completed; no other session and no other store table changes |
| SessionReply.FinishKeepsOtherProjects | server/routes.ts:579-583 | a finish for one project leaves every other project's files as they were |
| SessionReply.CreateSession | server/routes.ts:334-657 | the request opens a fresh session with the prompt. Without a throw it ends with the prompt and the chosen reply (the completion's text, or the canned page the prompt selects) and completed, and the project's files are those after saving the reply's blocks in order. With a throw the `catch` itself fails, so the session stays active with only the prompt and no file changes. Other sessions, other projects' files and the other tables are untouched |
| SessionReply.CreateSessionIntended | server/routes.ts:605-657 | with a throw the session is completed with the prompt and the canned hello page, and the files are those after saving that page's blocks under the html default; without one it is the request as written |
| SessionReply.CatchStrandsSession | server/routes.ts:605-611 | after a throw the written request leaves the session active with one message, where the intended one completes it with two |
| SessionReply.OneReplyMessage | server/routes.ts:592-604 | a finish keeps the given messages as a prefix, appends exactly one assistant message and completes the session; this holds at the end of the `try` and in the intended `catch`, which the written `catch` never reaches |
| SessionReply.ReplyRequestCapped | server/routes.ts:357-364 | the reply is requested without options, so its cap is 4000 tokens; a failing local call without OpenAI then fails as unsupported |
| Indexer.FirstIndex | server/services/indexer.ts:174 | finds the first occurrence of the character, and none iff it is absent |
| Indexer.CompileLogPattern | server/services/indexer.ts:174 | *.log becomes the expression .*.log: any run, any character, then l, o, g |
| Indexer.Compile | server/services/indexer.ts:174-175 | the compiled pattern renders back to its source text, has no more atoms than characters, and holds no literal dot: an unescaped dot is a wildcard |
| Indexer.MatchAt | server/services/indexer.ts:175 | a match at a position fits in the text; a pattern of literals matches exactly where its text occurs |
| Indexer.Test | server/services/indexer.ts:175 | the unanchored test succeeds iff the pattern matches at some position |
| Indexer.LogTail | server/services/indexer.ts:175 | the tail of that expression matches at a position iff some non-terminator character there is followed by log |
| Indexer.LogMatchAt | server/services/indexer.ts:175 | a match from a position needs such a character later on, and one at the position gives a match |
| Indexer.LogTest | server/services/indexer.ts:175 | the unanchored test succeeds iff some character other than a line terminator is followed by log |
| Indexer.ExactPattern | server/services/indexer.ts:177 | a pattern without * matches by name equality only |
| Indexer.LogPatternMatches | server/services/indexer.ts:172-176 | the *.log pattern as written hides a name iff it contains a character other than a line terminator followed by log |
| Indexer.ShouldIgnoreIff | server/services/indexer.ts:159-178 | as written, a name is ignored iff it is one of the eight exact names or contains a character other than a line terminator followed by log |
| Indexer.GlobLiteral | server/services/indexer.ts:177 | a glob without * matches only itself |
| Indexer.GlobSuffix | server/services/indexer.ts:166 | *suffix matches exactly the names ending in the suffix |
| Indexer.ExactGlob | server/services/indexer.ts:160-170 | each exact ignore name, read as a glob, matches only itself |
| Indexer.LogGlob | server/services/indexer.ts:166 | the *.log entry, read as a glob, matches exactly the names ending in .log |
| Indexer.LogSuffixGlob | server/services/indexer.ts:166 | the glob *.log matches exactly the names of at least four characters ending in .log |
| Indexer.ShouldIgnoreIntendedIff | server/services/indexer.ts:159-178 | with the glob read as intended, a name is ignored iff it is an exact name or ends in .log |
| Indexer.CatalogHidden | server/services/indexer.ts:172-176 | catalog.ts is hidden as written, though it does not end in .log |
| Indexer.DialogHidden | server/services/indexer.ts:172-176 | dialog.tsx is hidden as written, though it does not end in .log |
| Indexer.LogFileHidden | server/services/indexer.ts:166 | debug.log is hidden either way |
| Indexer.BareLogKept | server/services/indexer.ts:172-176 | the bare name log is kept either way |
| Indexer.NodeModulesHidden | server/services/indexer.ts:161 | node_modules is hidden either way |
| Indexer.NoLogWithoutG | server/services/indexer.ts:175 | a name without g never matches the log test |
| Indexer.SimilarNameKept | server/services/indexer.ts:177 | node_modules2 is not hidden as written |
| Indexer.SimilarNameKeptIntended | server/services/indexer.ts:177 | node_modules2 is not hidden with the intended glob either |
| Indexer.LastIndexOf | server/services/indexer.ts:237 | finds the last occurrence of the character, and none iff it is absent |
| Indexer.Extname | server/services/indexer.ts:237 | the extension is empty or a proper suffix that starts with its only dot |
| Indexer.ExtnameAt | server/services/indexer.ts:237 | the last dot, when it is not the first character, starts the extension |
| Indexer.CodeFileHasExtension | server/services/indexer.ts:235-239 | a code file has a last dot after its first character whose lower-cased suffix is in the list |
| Indexer.ExtensionMakesCodeFile | server/services/indexer.ts:235-239 | such a dot and suffix make the name a code file |
| Indexer.IsCodeFileIff | server/services/indexer.ts:235-239 | a name is a code file iff its last dot comes after the first character and the lower-cased suffix from it is one of the 12 extensions |
| Indexer.UpperCaseExtension | server/services/indexer.ts:237 | App.TSX is a code file: case is ignored |
| Indexer.LastDotCounts | server/services/indexer.ts:237 | main.test.py is a code file: the last dot counts |
| Indexer.DotFileIsNotCode | server/services/indexer.ts:237 | .ts alone is no code file: a leading dot starts no extension |
| Indexer.MarkdownIsNotCode | server/services/indexer.ts:236 | notes.md is no code file |
| Indexer.NameLeTotal | server/services/indexer.ts:155 | any two names are ordered one way or the other |
| Indexer.NameLeTrans | server/services/indexer.ts:155 | the name order is transitive |
| Indexer.NodeLeTotal | server/services/indexer.ts:150-156 | the node order is total, so the sort is defined |
| Indexer.NodeOf | server/services/indexer.ts:130-147 | a node keeps the entry's name and gets the joined relative path |
| Indexer.Tree | server/services/indexer.ts:118-157 | a level is the collected nodes re-ordered, none lost or added, directories first and by name |
| Indexer.CollectMembers | server/services/indexer.ts:122-148 | the nodes collected are exactly those of the entries not ignored |
| Indexer.TreeMembers | server/services/indexer.ts:122-157 | the sorted level holds exactly the nodes of the entries not ignored |
| Indexer.TreeWellFormed | server/services/indexer.ts:128-146 | at every depth no ignored name appears, an empty directory has no children list, and a file is unmodified |
| Indexer.NodeWellFormed | server/services/indexer.ts:128-146 | the same for one node |
| Indexer.DirectoriesFirst | server/services/indexer.ts:152-154 | in a sorted level no directory follows a file |
| Indexer.NamesOrdered | server/services/indexer.ts:155 | in a sorted level two nodes of the same kind are ordered by name |
| Indexer.GetFileTree | server/services/indexer.ts:32-40 | a missing project directory fails with "Project directory not found"; otherwise the tree is well formed, sorted and holds exactly the top-level entries the written ignore test keeps |
| Indexer.GetFileTreeIntended | server/services/indexer.ts:32-40 | the same tree with the ignore test anchored at a literal `.log` suffix |
| Indexer.CatalogMissingFromTree | server/services/indexer.ts:172-176 | a directory holding only `catalog.ts` yields an empty tree as written, and the one file under the intended test |
| GitClient.CommitMessage | client/src/lib/git.ts:94-101 | the message is exactly `[Reme] <goal> \| files: ` followed by the file list and then, only for a non-empty session id, ` \| session: <id>`: its length is the three parts' sum, the list sits right after the head, and the message ends with the session part or with the list |
| GitClient.MessageHasFileList | client/src/lib/git.ts:100 | whatever the file list contains, the message contains |
| GitClient.CommitNamesFiles | client/src/lib/git.ts:94-101 | each of the first five files is named in the message |
| GitClient.FileListShape | client/src/lib/git.ts:95-96 | with more than five files the list is the first five joined, then ... and the count of the others |
| GitClient.FileListNames | client/src/lib/git.ts:95-97 | each of the first five files is named in the list |
| GitClient.FileListCounts | client/src/lib/git.ts:96 | with more than five files the list includes (+N more) |
| GitClient.CommitCountsRest | client/src/lib/git.ts:94-101 | with more than five files the message says how many more, and that number reads back as the count of the others |
| GitClient.Collapse | client/src/lib/git.ts:161 | collapsing white space never lengthens the text |
| GitClient.CollapseChars | client/src/lib/git.ts:161 | each character of the result is a kept non-space character or a hyphen standing for white space |
| GitClient.CollapseNoDoubleHyphen | client/src/lib/git.ts:159-161 | without hyphens in the input, the collapsed text has no two hyphens in a row |
| GitClient.TrimStartKeepsWords | client/src/lib/git.ts:161 | trimming the front drops only white space |
| GitClient.CollapseKeepsWords | client/src/lib/git.ts:161 | for input without hyphens, collapsing keeps every non-space character, in order, and adds only hyphens |
| GitClient.StripKeepsSlugChars | client/src/lib/git.ts:160 | the strip keeps exactly the letters and digits, plus white space |
| GitClient.Stripped | client/src/lib/git.ts:159-160 | the stripped goal has no hyphen |
| GitClient.StrippedChars | client/src/lib/git.ts:160 | every character left is a lower-case letter, a digit or white space |
| GitClient.SanitizeGoal | client/src/lib/git.ts:158-162 | the goal slug has at most 30 characters, all lower-case letters, digits or hyphens, with no two hyphens in a row |
| GitClient.FilterPrefix | client/src/lib/git.ts:162 | the letters of a cut text are a prefix of the letters of the whole |
| GitClient.SanitizeKeepsLetters | client/src/lib/git.ts:158-162 | the slug keeps the goal's letters and digits in order, as a prefix, and all of them when the hyphenated goal fits in 30 characters |
| GitClient.SlugGoalUnchanged | client/src/lib/git.ts:158-162 | a goal already made of at most 30 lower-case letters and digits is its own slug |
| GitClient.SlugLowerUnchanged | client/src/lib/git.ts:159 | lower-casing leaves such a goal alone |
| GitClient.KeptFilterUnchanged | client/src/lib/git.ts:160 | the strip leaves such a goal alone |
| GitClient.SlugCollapseUnchanged | client/src/lib/git.ts:161 | collapsing leaves such a goal alone |
| GitClient.BranchName | client/src/lib/git.ts:157-166 | the branch starts with feat/ and has at most 44 characters |
| GitClient.BranchNameParts | client/src/lib/git.ts:164 | the branch is feat/, the slug, a hyphen, then the first eight characters of the session id, or all when shorter |
| GitClient.TrimStartRun | client/src/lib/git.ts:161 | a leading white-space run trims away entirely |
| GitClient.CollapseLeadingRun | client/src/lib/git.ts:161 | a leading white-space run becomes one hyphen |
| GitClient.CollapseWordHead | client/src/lib/git.ts:161 | a leading non-space character is kept |
| GitClient.CollapseRun | client/src/lib/git.ts:161 | a word followed by a white-space run becomes the word and one hyphen |
| Ide.FileName | client/src/hooks/useIDE.ts:132 | the tab name is the part after the last / or, when that is empty, the whole path; it is empty only for the empty path |
| Ide.IconFor | client/src/hooks/useIDE.ts:135-155 | an extension outside the eight known ones gets the plain file icon, and a known one never does |
| Ide.LowerKeepsDots | client/src/hooks/useIDE.ts:133 | lower-casing keeps dots where they are |
| Ide.IconIgnoresCase | client/src/hooks/useIDE.ts:133-155 | a name and its lower-cased form get the same icon |
| Ide.OpenFile | client/src/hooks/useIDE.ts:127-168 | a failed request changes nothing; otherwise the file is selected with its text (or empty), the tabs stay as they were when the path is open, and one unmodified tab named after the last segment is appended when it is not |
| Ide.OpenKeepsValid | client/src/hooks/useIDE.ts:157-167 | opening keeps tab paths distinct and the selection on a tab, and leaves the path with a tab |
| Ide.OpenTwice | client/src/hooks/useIDE.ts:157-159 | opening the same file twice gives the same state as opening it once |
| Ide.CloseTab | client/src/hooks/useIDE.ts:281-292 | exactly the path's tabs go, the others keep their order; closing the selected file selects the first remaining tab, or clears the file and text when none remain; closing another file keeps the selection |
| Ide.SubseqKeepsDistinctPaths | client/src/hooks/useIDE.ts:282 | removing tabs keeps the paths distinct |
| Ide.CloseKeepsValid | client/src/hooks/useIDE.ts:281-292 | closing keeps tab paths distinct and the selection on a tab, and leaves no tab for the path |
| Ide.RunKeepsValid | client/src/hooks/useIDE.ts:157-167 | any sequence of opens and closes keeps every path on at most one tab and the selection on a tab |
| Ide.ClosedIsValid | client/src/hooks/useIDE.ts:37-39 | the initial editor, with no file and no tabs, is consistent |
| Text.ToLower | server/storage.ts:145 | lower-casing keeps the length, leaves no upper-case ASCII letter, and changes nothing else |
| Text.ToLowerIdempotent | server/routes.ts:128 | lower-casing twice equals lower-casing once |
| Text.IndexOf | server/storage.ts:147 | a hit is an occurrence and no earlier position holds one |
| Text.IndexOfFinds | server/storage.ts:147 | the search finds something iff the text includes the piece |
| Text.JoinContains | client/src/lib/git.ts:97 | a joined list includes each of its items |
| Text.Trim | server/routes.ts:578 | the result is the text less a white-space prefix and suffix, and neither end is white space |
| Text.TrimStart | server/routes.ts:578 | the result is a suffix of the text, the dropped prefix is white space, and the result starts with none |
| Text.TrimEnd | server/routes.ts:578 | the result is a prefix of the text, the dropped suffix is white space, and the result ends with none |
| Text.Split | server/routes.ts:549 | splitting yields at least one piece and no piece holds the separator |
| Text.JoinSplit | server/routes.ts:549-550 | joining the pieces with the separator gives back the text |
| Text.SplitJoin | server/routes.ts:555 | splitting a join of separator-free pieces gives back the pieces |
| Text.LastPiece | client/src/hooks/useIDE.ts:132 | the last piece is the separator-free suffix after the last separator |
| Text.SplitLast | client/src/hooks/useIDE.ts:132 | the last piece of a split is that suffix |
| Text.LastPieceUnique | client/src/hooks/useIDE.ts:132 | only one suffix has that shape |
| Text.NatToString | client/src/lib/git.ts:96 | a count renders as digits, with a leading zero only for zero |
| Text.DecimalRoundTrip | client/src/lib/git.ts:96 | reading the rendered digits back gives the number |
| Text.NatToStringInjective | server/services/agent.ts:199 | different numbers render differently |
| Text.IntToString | server/services/agent.ts:119 | a number renders with a leading minus iff it is negative |
| Seqs.Filter | server/storage.ts:121 | the filter keeps exactly the items that pass, each as often as before, in order |
| Seqs.FilterAppend | server/storage.ts:121 | filtering a concatenation filters each part |
| Seqs.SliceEnd | server/storage.ts:157 | slice(0, n) ends at n clamped to the length, counting a negative n from the end |
| Seqs.SliceTo | server/storage.ts:157 | the slice is a prefix of that length |
| Seqs.SubseqPrefix | server/services/memory.ts:89 | a prefix of a subsequence is a subsequence, so a cut keeps order |
| Seqs.DedupBy | server/services/memory.ts:85-87 | keeps the first item of each key, repeats no key, loses no key and keeps the order |
| Seqs.DedupKeepsDistinctPrefix | server/services/memory.ts:85-87 | a key-distinct front part survives dedup unchanged |
| Seqs.InsertionSort | server/storage.ts:155 | the sort orders the items and keeps each of them as often as before |
| Seqs.InsertStable | server/storage.ts:155 | an insertion puts the new item ahead of every item of its own key and keeps each key's items in order |
| Seqs.SortStable | server/storage.ts:155 | the sort is stable: for any key the order never separates, the items of each key leave in their input order |
| Seqs.SortKeepsDistinct | server/storage.ts:155 | sorting keeps keys distinct |

## Left out

- The network and the language models. The OpenAI, Anthropic and Ollama clients, `fetch`, and `JSON.parse` of a model answer are parameters. A model's answer is a `Result`, and a provider call is a function from model and cap to a `Result`.
- Prompt construction in `createIntent`, `proposePatch` and the session route is not modelled: the prompts only feed the model.
- The client's `summarizeSession` is not modelled: it is a fetch with a prefixed failure and no logic of its own.
- `estimateCost` and `costPerToken` are not modelled: they are floating-point arithmetic. `Models.FromCloud` and `Models.GenerateCompletion` therefore return the text and token count but no cost.
- Time is a natural-number parameter. One `now` stamps every record of an operation. The local-time day window of `distillDailySessions` and the ISO date string are computed by the caller.
- Keys: a random UUID becomes the next free index of its table; a project key also skips every id that a git state, a file set, a session or a memory note already refers to. Only this freshness of a UUID is modelled, not its text.
- Concurrency is not modelled. This covers WebSocket broadcasts, the fire-and-forget `processSession` and `continueSession` calls, the `setTimeout` of the session route, and interleaved requests. Each handler runs to completion on one store.
- `pullLocalModel`, `listLocalModels` and `initializeOllama` are not modelled: they are pass-through to the Ollama client. Whether Ollama, OpenAI and Anthropic are available is a parameter.
- Test runs and style profiles of the store are not modelled, nor `getColdMemory`'s `testRuns` field: no modelled operation writes them.
- The vector-database indexing in template-to-project creation is not modelled: its failure is caught and ignored.
- Indexer I/O is not modelled: reading directories, file sizes, `getFileContent`, `updateFileContent`, project scaffolding and symbol extraction. The directory is an abstract tree of entries.
- Text.ToLower: lower-cases ASCII letters only, where JavaScript's `toLowerCase` covers all of Unicode.
- Indexer.NameLeTotal: ordinal comparison stands in for `localeCompare`, whose locale collation cannot be stated here.
- Indexer.Extname: treats `/` as an ordinary character, since tree entries are single names. Only a leading dot, or the name `..`, yields no extension.
- Indexer.Compile: reads only `.`, `.*` and literal characters, which is all the one wildcard ignore pattern produces.
- Ide.CloseTab: picks the next selection from the current tab list. The source reads the `tabs` captured when the callback was last created; the two differ only if a tab update is still pending.
- Ide.CloseTab: the content of the newly selected tab arrives by a later file request keyed on the current file, and the effect that copies its answer into the editor; that request is not modelled, so the model leaves the text as it was.
- GitClient.BranchName: the HTTP call in `createBranch` is not modelled; only the name it is given is.
- Storage.ListFiles: returns a map from path to size. The source's array lists paths in first-save order and stamps each with the listing time as `lastModified`; neither the order nor that clock reading is modelled.
- Storage.ListFiles: a size is the length in characters. JavaScript's `length` counts UTF-16 code units, so a character outside the Basic Multilingual Plane counts twice there.
- Memory.Goals: cuts prompts at 50 characters. JavaScript's `slice(0, 50)` cuts at 50 UTF-16 code units and can split a surrogate pair.
- GitClient.BranchName: the 30-character slug and the 8-character session prefix are counted in characters, not UTF-16 code units. The sanitised slug is ASCII, so only the session id could differ.
- Models.GenerateCompletion: a caller's options are spread last into the OpenAI request, so they can also replace its `model`, `messages` and `temperature`. Only `max_tokens` is modelled; no caller in the modelled code passes options.
- Schema.MergeSession: an update record holds only the fields the callers set. The source's `Partial<Session>` update could also overwrite `id`, `projectId` or `createdAt`; no modelled caller does.
- Schema.MergeProject: an update record holds only name, repository URL, default branch and settings. The source's `Partial<Project>` could also overwrite `id` or `createdAt`; no modelled caller does.
- Schema.MergeFileChange: an update record holds only hunks and applied. The source's `Partial<FileChange>` could also overwrite `id`, `sessionId`, `filePath`, `changeType` or `createdAt`; no modelled caller does.
- Schema.MergeGit: an update record holds only branch, ahead, behind and last commit. The source's `Partial<GitState>` could also overwrite `projectId`; `updatedAt` is restamped after the spread, as in the source.
- CodeBlocks.StripMarkerLines: its own contract only bounds the length. What it keeps is stated by `CodeBlocks.NoCommentKeepsContent` and `CodeBlocks.StripOnlyDeletes`.
- The server's template list is a parameter of `Templates.CreateFromTemplate`, returned updated. In the source it is a module-level array mutated in place.
- UI pages and components, `server/services/git.ts`, `server/services/vector.ts`, the Tailwind configuration and the visual tests are not part of this model.

## Findings

| source | as written | input that shows it | evidently intended | confidence | as-written member | corrected member |
|---|---|---|---|---|---|---|
| server/services/indexer.ts:172-176 | `*.log` becomes the regular expression `.*.log`, unanchored and with an unescaped dot, so it hides any name where some character is followed by `log` | `catalog.ts` and `dialog.tsx` are hidden from the file tree | hide only names ending in `.log` | not executed | Indexer.GetFileTree, Indexer.ShouldIgnoreIff, Indexer.CatalogHidden, Indexer.DialogHidden, Indexer.CatalogMissingFromTree | Indexer.GetFileTreeIntended, Indexer.ShouldIgnoreIntendedIff |
| server/routes.ts:605-611 | the `catch` reads `aiResponse`, which is declared with `let` inside the `try` (routes.ts:386), so the name is out of scope there and the `catch` itself throws a ReferenceError | a request whose `prompt` is not a string: `prompt.toLowerCase()` at routes.ts:435 throws | complete the session with the canned reply and save its files, as the `catch` spells out | not executed | SessionReply.CreateSession, SessionReply.CatchStrandsSession | SessionReply.CreateSessionIntended |
