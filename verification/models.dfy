/** The model router: a fixed registry of seven models, the priority rules that
    pick one for a task, and the dispatch of a completion to the model's
    provider with a single local-to-cloud fallback.

    Provider calls are a parameter `call` (the answer of the SDK or the error it
    threw), and so is which providers were configured at start-up. Prices are
    floating point and are not modelled. */
module Models {
  import opened Wrappers
  import Seqs

  datatype Provider = OpenAI | Anthropic | Ollama | LocalProvider

  /** The provider's name as it appears in error messages. */
  function ProviderName(p: Provider): string {
    match p
    case OpenAI => "openai"
    case Anthropic => "anthropic"
    case Ollama => "ollama"
    case LocalProvider => "local"
  }

  /** A task type, which is also what a model's capability list holds. */
  datatype Capability = Code | Analysis | Reasoning | Completion | Vision

  datatype ModelConfig = ModelConfig(name: string, provider: Provider, maxTokens: nat,
                                     capabilities: seq<Capability>, local: bool)

  // ---------------------------------------------------------------------------
  // The registry

  const SonnetFour := ModelConfig("claude-sonnet-4-20250514", Anthropic, 200000, [Code, Analysis, Reasoning, Vision], false)
  const SonnetThreeSeven := ModelConfig("claude-3-7-sonnet-20250219", Anthropic, 200000, [Code, Analysis, Reasoning, Vision], false)
  const GptFourO := ModelConfig("gpt-4o", OpenAI, 128000, [Code, Analysis, Reasoning, Vision], false)
  const GptFourOMini := ModelConfig("gpt-4o-mini", OpenAI, 128000, [Code, Analysis, Reasoning], false)
  const CodeGemma := ModelConfig("codegemma:7b", Ollama, 8192, [Code, Completion], true)
  const QwenCoder := ModelConfig("qwen2.5-coder:7b", Ollama, 32768, [Code, Analysis, Reasoning], true)
  const Llama := ModelConfig("llama3.2:3b", Ollama, 128000, [Reasoning, Analysis], true)

  /** `initializeModels`: the map's keys and values in insertion order. */
  const Registry: seq<(string, ModelConfig)> := [
    ("claude-sonnet-4", SonnetFour),
    ("claude-3-7-sonnet", SonnetThreeSeven),
    ("gpt-4o", GptFourO),
    ("gpt-4o-mini", GptFourOMini),
    ("codegemma", CodeGemma),
    ("qwen2.5-coder", QwenCoder),
    ("llama3.2", Llama)
  ]

  /** `models.get(key)`. */
  function Lookup(rs: seq<(string, ModelConfig)>, key: string): (r: Option<ModelConfig>)
    ensures r.Some? <==> exists i :: 0 <= i < |rs| && rs[i].0 == key
    ensures r.Some? ==> exists i :: 0 <= i < |rs| && rs[i] == (key, r.value)
  {
    if |rs| == 0 then None
    else if rs[0].0 == key then Some(rs[0].1)
    else
      var r := Lookup(rs[1..], key);
      assert forall i :: 0 < i < |rs| ==> rs[i] == rs[1..][i - 1];
      r
  }

  /** `getAvailableModels`: the registry's values in insertion order. */
  function AvailableModels(): (r: seq<ModelConfig>)
    ensures |r| == |Registry|
    ensures forall i :: 0 <= i < |r| ==> r[i] == Registry[i].1
  {
    [SonnetFour, SonnetThreeSeven, GptFourO, GptFourOMini, CodeGemma, QwenCoder, Llama]
  }

  /** The keys the router and the fallback look up name the expected entries. */
  lemma NamedEntries()
    ensures Lookup(Registry, "claude-sonnet-4") == Some(SonnetFour)
    ensures Lookup(Registry, "claude-3-7-sonnet") == Some(SonnetThreeSeven)
    ensures Lookup(Registry, "gpt-4o-mini") == Some(GptFourOMini)
  {
    assert Lookup(Registry[3..], "gpt-4o-mini") == Some(GptFourOMini);
    assert Lookup(Registry[2..], "gpt-4o-mini") == Some(GptFourOMini);
    assert Lookup(Registry[1..], "gpt-4o-mini") == Some(GptFourOMini);
  }

  // ---------------------------------------------------------------------------
  // Routing

  datatype Level = Low | Medium | High

  datatype Task = Task(kind: Capability, complexity: Level, urgency: Level, tokens: int, preferLocal: Option<bool>)

  /** The model can take a request: it has the capability and a large enough window. */
  predicate Fits(task: Task, m: ModelConfig) {
    task.kind in m.capabilities && m.maxTokens >= task.tokens
  }

  /** `candidates`: the fitting models, in registry order. */
  function Candidates(task: Task, ms: seq<ModelConfig>): (r: seq<ModelConfig>)
    ensures forall m :: m in r <==> m in ms && Fits(task, m)
  {
    Seqs.Filter(ms, (m: ModelConfig) => Fits(task, m))
  }

  /** `candidates.filter(m => m.local)`. */
  function LocalOnly(ms: seq<ModelConfig>): (r: seq<ModelConfig>)
    ensures forall m :: m in r <==> m in ms && m.local
  {
    Seqs.Filter(ms, (m: ModelConfig) => m.local)
  }

  /** `ms[i]` is local and fits the request, and no model before it is both. */
  predicate FirstLocalAt(task: Task, ms: seq<ModelConfig>, i: int) {
    && 0 <= i < |ms| && ms[i].local && Fits(task, ms[i])
    && forall j :: 0 <= j < i ==> !(ms[j].local && Fits(task, ms[j]))
  }

  /** A reference definition: the first local model of `ms` that fits the request. */
  function FirstLocalFit(task: Task, ms: seq<ModelConfig>): (r: Option<ModelConfig>)
    ensures r.None? <==> forall m :: m in ms ==> !(m.local && Fits(task, m))
    ensures r.Some? ==> exists i :: FirstLocalAt(task, ms, i) && ms[i] == r.value
  {
    if |ms| == 0 then None
    else if ms[0].local && Fits(task, ms[0]) then
      assert FirstLocalAt(task, ms, 0);
      Some(ms[0])
    else
      var r := FirstLocalFit(task, ms[1..]);
      assert forall m :: m in ms ==> m == ms[0] || m in ms[1..];
      if r.Some? then
        var i :| FirstLocalAt(task, ms[1..], i) && ms[1..][i] == r.value;
        assert FirstLocalAt(task, ms, i + 1) by {
          assert forall j :: 1 <= j <= i + 1 ==> ms[j] == ms[1..][j - 1];
        }
        r
      else r
  }

  /** The local candidates, as the router computes them, start with the first
      local fitting model and are empty exactly when there is none. */
  lemma {:induction false} LocalCandidatesHead(task: Task, ms: seq<ModelConfig>)
    ensures |LocalOnly(Candidates(task, ms))| == 0 <==> FirstLocalFit(task, ms).None?
    ensures |LocalOnly(Candidates(task, ms))| > 0 ==> LocalOnly(Candidates(task, ms))[0] == FirstLocalFit(task, ms).value
    decreases |ms|
  {
    if |ms| > 0 {
      LocalCandidatesHead(task, ms[1..]);
      assert Candidates(task, ms) == (if Fits(task, ms[0]) then [ms[0]] else []) + Candidates(task, ms[1..]);
      if Fits(task, ms[0]) {
        assert LocalOnly(Candidates(task, ms)) == (if ms[0].local then [ms[0]] else []) + LocalOnly(Candidates(task, ms[1..]));
      }
    }
  }

  /** A request asks for a local model: low complexity, and `preferLocal` not
      explicitly false. */
  predicate WantsLocal(task: Task) {
    task.complexity == Low && task.preferLocal != Some(false)
  }

  /** `routeRequest`. */
  function RouteRequest(task: Task): (r: ModelConfig)
    ensures WantsLocal(task) && FirstLocalFit(task, AvailableModels()).Some? ==>
      r == FirstLocalFit(task, AvailableModels()).value
    ensures !(WantsLocal(task) && FirstLocalFit(task, AvailableModels()).Some?) ==>
      r == if task.complexity == High || task.urgency == High then SonnetFour else SonnetThreeSeven
    ensures r in AvailableModels()
    ensures r.local ==> Fits(task, r)
    ensures task.preferLocal == Some(false) ==> !r.local
  {
    var local := LocalOnly(Candidates(task, AvailableModels()));
    LocalCandidatesHead(task, AvailableModels());
    if WantsLocal(task) && |local| > 0 then local[0]
    else if task.complexity == High || task.urgency == High then SonnetFour
    else SonnetThreeSeven
  }

  /** A small low-complexity code task goes to the first local code model. */
  lemma SmallCodeTaskRunsLocally(u: Level)
    ensures RouteRequest(Task(Code, Low, u, 500, None)) == CodeGemma
    ensures RouteRequest(Task(Code, Low, u, 500, None)).name == "codegemma:7b"
  {
    var t := Task(Code, Low, u, 500, None);
    var ms := AvailableModels();
    assert ms[4] == CodeGemma && Fits(t, CodeGemma);
    assert FirstLocalFit(t, ms[4..]) == Some(CodeGemma);
    assert FirstLocalFit(t, ms[3..]) == Some(CodeGemma);
    assert FirstLocalFit(t, ms[2..]) == Some(CodeGemma);
    assert FirstLocalFit(t, ms[1..]) == Some(CodeGemma);
    assert FirstLocalFit(t, ms) == Some(CodeGemma);
    assert WantsLocal(t);
  }

  /** An urgent task gets the large Claude model even when it cannot take the
      task type: no model but the local one knows `completion`. */
  lemma UrgentCompletionIgnoresCapabilities(tokens: int)
    ensures RouteRequest(Task(Completion, Medium, High, tokens, None)) == SonnetFour
    ensures !Fits(Task(Completion, Medium, High, tokens, None), SonnetFour)
  {
    var t := Task(Completion, Medium, High, tokens, None);
    assert !WantsLocal(t);
    assert Completion !in SonnetFour.capabilities;
  }

  // ---------------------------------------------------------------------------
  // Completion

  /** `Math.min(options.maxTokens || 4000, modelConfig.maxTokens)`: an absent or
      zero request asks for 4000. */
  function OutputCap(requested: Option<int>, m: ModelConfig): (r: int)
    ensures r <= m.maxTokens
    ensures requested.Some? && requested.value != 0 ==> r == requested.value || r == m.maxTokens
    ensures requested.Some? && requested.value != 0 && requested.value <= m.maxTokens ==> r == requested.value
    ensures (requested.None? || requested.value == 0) ==> r == if m.maxTokens < 4000 then m.maxTokens else 4000
  {
    var want := if requested.Some? && requested.value != 0 then requested.value else 4000;
    if want < m.maxTokens then want else m.maxTokens
  }

  /** Which SDK clients exist: the API keys were set, and `ollama` could be
      imported. */
  datatype Availability = Availability(openai: bool, anthropic: bool, ollama: bool)

  /** What a provider call answers: the text and the token count it reports. */
  datatype Answer = Answer(content: string, tokens: nat)

  /** What `generateCompletion` returns (the cost is not modelled). */
  datatype Reply = Reply(content: string, tokens: nat)

  /** The model's provider has a client. */
  predicate Served(m: ModelConfig, a: Availability) {
    (m.provider == Anthropic && a.anthropic) || (m.provider == OpenAI && a.openai) || (m.provider == Ollama && a.ollama)
  }

  function Unsupported(p: Provider): string {
    "Unsupported provider: " + ProviderName(p)
  }

  /** A cloud answer as returned; a thrown error escapes. */
  function FromCloud(answer: Result<Answer, string>): (r: Result<Reply, string>)
    ensures r.Ok? <==> answer.Ok?
    ensures r.Ok? ==> r.value.content == answer.value.content && r.value.tokens == answer.value.tokens
    ensures r.Err? ==> r.error == answer.error
  {
    match answer
    case Ok(a) => Ok(Reply(a.content, a.tokens))
    case Err(e) => Err(e)
  }

  /** The caller's `options` object as far as it reaches a request:
      `maxTokens` is read by every branch, and `max_tokens`, when the caller
      sets it, reaches the OpenAI request through the trailing `...options`
      spread and replaces the capped value. */
  datatype Options = Options(maxTokens: Option<int>, rawMaxTokens: Option<int>)

  const NoOptions := Options(None, None)

  /** The output cap a request for `m` carries: the capped value, except that an
      OpenAI request takes the caller's own `max_tokens` when one is given. */
  function RequestCap(m: ModelConfig, options: Options): (r: int)
    ensures m.provider != OpenAI || options.rawMaxTokens.None? ==> r == OutputCap(options.maxTokens, m)
    ensures m.provider == OpenAI && options.rawMaxTokens.Some? ==> r == options.rawMaxTokens.value
  {
    if m.provider == OpenAI && options.rawMaxTokens.Some? then options.rawMaxTokens.value
    else OutputCap(options.maxTokens, m)
  }

  /** `generateCompletion(model, messages, options)`: `call(m, cap)` is the
      provider's answer for model `m` under output cap `cap`. */
  function GenerateCompletion(m: ModelConfig, avail: Availability,
                              call: (ModelConfig, int) -> Result<Answer, string>,
                              options: Options): (r: Result<Reply, string>)
    ensures !Served(m, avail) ==> r == Err(Unsupported(m.provider))
    ensures Served(m, avail) && m.provider != Ollama ==> r == FromCloud(call(m, RequestCap(m, options)))
    // a local answer reports no tokens
    ensures Served(m, avail) && m.provider == Ollama && call(m, OutputCap(options.maxTokens, m)).Ok? ==>
      r == Ok(Reply(call(m, OutputCap(options.maxTokens, m)).value.content, 0))
    // a local failure is retried once on the small OpenAI model, with the same options, and only there
    ensures Served(m, avail) && m.provider == Ollama && call(m, OutputCap(options.maxTokens, m)).Err? ==>
      r == if avail.openai then FromCloud(call(GptFourOMini, RequestCap(GptFourOMini, options)))
           else Err(Unsupported(OpenAI))
    decreases if m.provider == Ollama then 1 else 0
  {
    if m.provider == Anthropic && avail.anthropic then FromCloud(call(m, OutputCap(options.maxTokens, m)))
    else if m.provider == OpenAI && avail.openai then FromCloud(call(m, RequestCap(m, options)))
    else if m.provider == Ollama && avail.ollama then
      match call(m, OutputCap(options.maxTokens, m))
      case Ok(a) => Ok(Reply(a.content, 0))
      case Err(_) => GenerateCompletion(GptFourOMini, avail, call, options)
    else Err(Unsupported(m.provider))
  }

  /** Anthropic and Ollama requests always go out under the model's own window;
      an OpenAI request does so unless the caller set `max_tokens` itself. */
  lemma CapWithinWindow(m: ModelConfig, options: Options)
    ensures m.provider != OpenAI || options.rawMaxTokens.None? ==> RequestCap(m, options) <= m.maxTokens
    ensures options.rawMaxTokens.None? ==> RequestCap(GptFourOMini, options) <= 128000
  {
  }

  /** The caller's `max_tokens` is not capped: gpt-4o-mini is asked for 500000
      tokens, far beyond its 128000-token window. */
  lemma CallerMaxTokensEscapesCap()
    ensures var cap := RequestCap(GptFourOMini, Options(None, Some(500000)));
      cap == 500000 && cap > GptFourOMini.maxTokens
  {
  }

  /** When both the local model and the fallback fail, the fallback's error is
      what escapes. */
  lemma NoSecondFallback(m: ModelConfig, avail: Availability, call: (ModelConfig, int) -> Result<Answer, string>,
                         options: Options)
    requires m.provider == Ollama && avail.ollama && avail.openai
    requires call(m, OutputCap(options.maxTokens, m)).Err?
    requires call(GptFourOMini, RequestCap(GptFourOMini, options)).Err?
    ensures GenerateCompletion(m, avail, call, options) == Err(call(GptFourOMini, RequestCap(GptFourOMini, options)).error)
  {
  }
}
