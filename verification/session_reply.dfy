/** `POST /api/sessions` of the HTTP API: the session is stored with the user's
    prompt as its only message, and the reply is produced in the background: a
    completion from the local coder model (or a canned reply when that yields
    nothing), one file per fenced block, and the reply appended as the assistant's
    message with the session completed. The handler's `catch` branch cannot run
    as written; `CreateSessionIntended` gives the behaviour it was meant to have. */
module SessionReply {
  import opened Wrappers
  import opened Schema
  import opened Storage
  import Text
  import Models
  import CodeBlocks

  /** The model configuration the handler builds inline: the local coder model
      with a 4000-token window. */
  const ReplyModel := Models.ModelConfig("qwen2.5-coder", Models.Ollama, 4000, [Models.Code, Models.Analysis], true)

  /** The canned replies: a 3D scene when the prompt asks for one, else a page. */
  datatype Canned = HelloPage | SpinningCube

  function ChooseCanned(prompt: string): (r: Canned)
    ensures r == SpinningCube <==>
      Text.Contains(Text.ToLower(prompt), "three.js") || Text.Contains(Text.ToLower(prompt), "3d")
  {
    var p := Text.ToLower(prompt);
    if Text.Contains(p, "three.js") || Text.Contains(p, "3d") then SpinningCube else HelloPage
  }

  /** The reply the handler keeps: the completion when it succeeded with some
      text, otherwise the canned one. */
  function FinalReply(completion: Result<Models.Reply, string>, canned: string): (r: string)
    ensures completion.Ok? && completion.value.content != "" ==> r == completion.value.content
    ensures completion.Err? || completion.value.content == "" ==> r == canned
  {
    if completion.Ok? && completion.value.content != "" then completion.value.content else canned
  }

  /** Saves the files of `reply`, then appends the reply to the session `sid`
      (stored with `messages`) and completes it. With `errorPath` false this is
      the end of the handler's background `try`; with `errorPath` true it is what
      its `catch` sets out to do, which knows only the `html` default for
      unnamed blocks. */
  function Finish(st: Store, sid: Key, pid: Key, messages: seq<Message>, reply: string, errorPath: bool, later: nat): (r: Store)
    requires GetSession(st, sid).Some?
    ensures r == st.(sessions := r.sessions, files := r.files)
    ensures GetSession(r, sid) == Some(st.sessions[sid].(messages := messages + [Message(Assistant, reply, later)], status := Completed))
    ensures forall k :: k != sid ==> GetSession(r, k) == GetSession(st, k)
    ensures r.files == CodeBlocks.SaveAll(st, pid, CodeBlocks.ExtractFiles(reply, errorPath)).files
  {
    var st1 := CodeBlocks.SaveAll(st, pid, CodeBlocks.ExtractFiles(reply, errorPath));
    assert GetSession(st1, sid) == GetSession(st, sid);
    match UpdateSession(st1, sid, NoSessionChange.(messages := Some(messages + [Message(Assistant, reply, later)]), status := Some(Completed)))
    case Ok(st2) => st2
    case Err(_) => assert false; st1
  }

  /** The session as `POST /api/sessions` stores it, before the background task. */
  function Opened(pid: Key, prompt: string, now: nat): Session {
    Session(pid, prompt, [Message(User, prompt, now)], None, None, Active, now)
  }

  /** Files of other projects are untouched by a finish for `pid`. */
  lemma FinishKeepsOtherProjects(st: Store, sid: Key, pid: Key, messages: seq<Message>, reply: string, errorPath: bool, later: nat)
    requires GetSession(st, sid).Some?
    ensures forall q, p :: q != pid ==> GetFile(Finish(st, sid, pid, messages, reply, errorPath, later), q, p) == GetFile(st, q, p)
  {
    var st2 := Finish(st, sid, pid, messages, reply, errorPath, later);
    var ws := CodeBlocks.ExtractFiles(reply, errorPath);
    SameFilesSameReads(st2, CodeBlocks.SaveAll(st, pid, ws));
  }

  /** Two stores with the same saved files read the same. */
  lemma SameFilesSameReads(a: Store, b: Store)
    requires a.files == b.files
    ensures forall q, p :: GetFile(a, q, p) == GetFile(b, q, p)
  {
  }

  /** The whole request as written. `threw` says whether the background `try`
      throws before its first save; in the source that happens when the prompt
      is not a string, at `prompt.toLowerCase()`. The `catch` then reads
      `aiResponse`, which was declared inside the `try`, and throws a
      `ReferenceError` itself, so the session stays active with the prompt as
      its only message and no file is written. Otherwise the reply is the
      completion, or the canned text chosen by the prompt, and the session
      completes with it. */
  function CreateSession(st: Store, pid: Key, prompt: string, threw: bool, completion: Result<Models.Reply, string>,
                         cannedText: Canned -> string, now: nat, later: nat): (r: (Store, Key))
    ensures GetSession(st, r.1).None?
    ensures !threw ==> var reply := FinalReply(completion, cannedText(ChooseCanned(prompt)));
      GetSession(r.0, r.1) == Some(Session(pid, prompt, [Message(User, prompt, now), Message(Assistant, reply, later)],
                                           None, None, Completed, now))
    ensures threw ==> GetSession(r.0, r.1) == Some(Opened(pid, prompt, now)) && r.0.files == st.files
    // without a throw, the reply's blocks are saved to the project in order
    ensures !threw ==> var reply := FinalReply(completion, cannedText(ChooseCanned(prompt)));
      r.0.files == CodeBlocks.SaveAll(st, pid, CodeBlocks.ExtractFiles(reply, false)).files
    ensures forall k :: k != r.1 ==> GetSession(r.0, k) == GetSession(st, k)
    ensures r.0 == st.(sessions := r.0.sessions, files := r.0.files)
    ensures forall q, p :: q != pid ==> GetFile(r.0, q, p) == GetFile(st, q, p)
  {
    var (st1, sid) := Storage.CreateSession(st, Opened(pid, prompt, now), now);
    if threw then (st1, sid)
    else
      var first := [Message(User, prompt, now)];
      var reply := FinalReply(completion, cannedText(ChooseCanned(prompt)));
      assert first + [Message(Assistant, reply, later)] == [Message(User, prompt, now), Message(Assistant, reply, later)];
      assert st1.sessions[sid] == Opened(pid, prompt, now) by {
        assert GetSession(st1, sid).Some?;
      }
      FinishKeepsOtherProjects(st1, sid, pid, first, reply, false, later);
      CodeBlocks.SaveAllSeesOnlyFiles(st1, st, pid, CodeBlocks.ExtractFiles(reply, false));
      (Finish(st1, sid, pid, first, reply, false, later), sid)
  }

  /** The request as its `catch` evidently means it: when the `try` throws at
      `prompt.toLowerCase()`, the reply in hand is still the canned page, and the
      `catch` saves its files with the `html` default and completes the session
      with it. Without a throw it is the request as written. */
  function CreateSessionIntended(st: Store, pid: Key, prompt: string, threw: bool, completion: Result<Models.Reply, string>,
                                 cannedText: Canned -> string, now: nat, later: nat): (r: (Store, Key))
    ensures GetSession(st, r.1).None?
    ensures var reply := if threw then cannedText(HelloPage) else FinalReply(completion, cannedText(ChooseCanned(prompt)));
      GetSession(r.0, r.1) == Some(Session(pid, prompt, [Message(User, prompt, now), Message(Assistant, reply, later)],
                                           None, None, Completed, now))
    ensures var reply := if threw then cannedText(HelloPage) else FinalReply(completion, cannedText(ChooseCanned(prompt)));
      r.0.files == CodeBlocks.SaveAll(st, pid, CodeBlocks.ExtractFiles(reply, threw)).files
    ensures !threw ==> r == CreateSession(st, pid, prompt, threw, completion, cannedText, now, later)
    ensures forall k :: k != r.1 ==> GetSession(r.0, k) == GetSession(st, k)
    ensures r.0 == st.(sessions := r.0.sessions, files := r.0.files)
    ensures forall q, p :: q != pid ==> GetFile(r.0, q, p) == GetFile(st, q, p)
  {
    if !threw then CreateSession(st, pid, prompt, threw, completion, cannedText, now, later)
    else
      var (st1, sid) := Storage.CreateSession(st, Opened(pid, prompt, now), now);
      var first := [Message(User, prompt, now)];
      var reply := cannedText(HelloPage);
      assert first + [Message(Assistant, reply, later)] == [Message(User, prompt, now), Message(Assistant, reply, later)];
      assert st1.sessions[sid] == Opened(pid, prompt, now) by {
        assert GetSession(st1, sid).Some?;
      }
      FinishKeepsOtherProjects(st1, sid, pid, first, reply, true, later);
      CodeBlocks.SaveAllSeesOnlyFiles(st1, st, pid, CodeBlocks.ExtractFiles(reply, true));
      (Finish(st1, sid, pid, first, reply, true, later), sid)
  }

  /** As written, a throw in the background task strands the session: it stays
      active with only the prompt, where the intended handler completes it with
      the canned reply. */
  lemma CatchStrandsSession(st: Store, pid: Key, prompt: string, completion: Result<Models.Reply, string>,
                            cannedText: Canned -> string, now: nat, later: nat)
    ensures var (st1, sid) := CreateSession(st, pid, prompt, true, completion, cannedText, now, later);
      && st1.sessions[sid].status == Active && |st1.sessions[sid].messages| == 1
    ensures var (st2, sid) := CreateSessionIntended(st, pid, prompt, true, completion, cannedText, now, later);
      && st2.sessions[sid].status == Completed && |st2.sessions[sid].messages| == 2
  {
  }

  /** A finish appends exactly one assistant message to the earlier ones and
      completes the session, both at the end of the `try` and in the intended
      `catch`; the `catch` as written never gets this far. */
  lemma OneReplyMessage(st: Store, sid: Key, pid: Key, messages: seq<Message>, reply: string, errorPath: bool, later: nat)
    requires GetSession(st, sid).Some?
    ensures var s := GetSession(Finish(st, sid, pid, messages, reply, errorPath, later), sid).value;
      && |s.messages| == |messages| + 1
      && s.messages[..|messages|] == messages
      && s.messages[|messages|].role == Assistant
      && s.status == Completed
  {
    var s := GetSession(Finish(st, sid, pid, messages, reply, errorPath, later), sid).value;
    assert s.messages == messages + [Message(Assistant, reply, later)];
  }

  /** The completion request goes out under the inline model's 4000-token window;
      when the local call fails it is retried once on the small OpenAI model. */
  lemma ReplyRequestCapped(avail: Models.Availability, call: (Models.ModelConfig, int) -> Result<Models.Answer, string>)
    ensures Models.OutputCap(None, ReplyModel) == 4000
    ensures avail.ollama && call(ReplyModel, 4000).Err? && !avail.openai ==>
      Models.GenerateCompletion(ReplyModel, avail, call, Models.NoOptions) == Err("Unsupported provider: openai")
  {
    assert Models.Unsupported(Models.OpenAI) == "Unsupported provider: openai";
  }
}
