/** `askLLM`: try the models in the caller's order, moving on only when a
    provider is rate limited or needs payment (HTTP 429 or 402), or, for
    the two local servers, when the connection is refused; any other
    failure ends the call. Each provider's HTTP call is an oracle. */
module LlmClient {
  import opened Wrappers

  /** The model names `askLLM` knows. */
  datatype Provider = OpenAI | OpenRouter | Gemini | DeepSeek | LMStudio | Ollama

  function ParseProvider(name: string): Option<Provider> {
    if name == "openai" then Some(OpenAI)
    else if name == "openrouter" then Some(OpenRouter)
    else if name == "gemini" then Some(Gemini)
    else if name == "deepseek" then Some(DeepSeek)
    else if name == "lmstudio" then Some(LMStudio)
    else if name == "ollama" then Some(Ollama)
    else None
  }

  /** The two servers that run on the local machine. */
  predicate IsLocal(p: Provider) {
    p == LMStudio || p == Ollama
  }

  /** The value found where a reply's answer text should be: a string, or
      any other JavaScript value (`undefined`, `null`, Gemini's part object). */
  datatype Content = Text(s: string) | NonText

  /** Gemini's first content part; `text` is `None` when it is missing or "". */
  datatype GeminiPart = GeminiPart(text: Option<string>)

  /** The body of a successful reply as far as `askLLM` reads it.
      `Choices(None)` and `Candidates(None)` stand for a body in which the
      path to the answer cannot be followed. */
  datatype Body = Choices(message: Option<Content>) | Candidates(firstPart: Option<GeminiPart>)

  /** What one HTTP call produces. */
  datatype Reply = Answered(body: Body) | HttpError(status: int) | ConnRefused | TransportError

  /** The reply of `provider` to `prompt`. */
  type LlmOracle = (string, Provider) -> Reply

  /** Why one attempt failed. */
  datatype Failure =
    | Http(status: int)
    | ConnectionRefused
    | Transport
    | ResponseShape(provider: Provider)
    | UnexpectedGemini
    | ModelNotSupported(name: string)

  /** What `askLLM` throws: the rate-limit error with the last retry-worthy
      failure (`null` when there was none), or the failure that stopped it. */
  datatype LlmError = AllRateLimited(lastError: Option<Failure>) | Fatal(cause: Failure)

  /** `{ content, modelUsed }`. */
  datatype Completion = Completion(content: Content, modelUsed: string)

  /** The `models` argument: one name or a list. */
  datatype Models = One(name: string) | Many(names: seq<string>)

  /** `Array.isArray(models) ? models : [models]`. */
  function ModelList(m: Models): (ms: seq<string>)
    ensures m.One? ==> ms == [m.name]
    ensures m.Many? ==> ms == m.names
  {
    match m
    case One(n) => [n]
    case Many(ns) => ns
  }

  /** Reading the answer out of a successful reply. Gemini returns the
      first part's text when it is a non-empty string, the part itself when
      it exists without one, and throws otherwise; the others return
      whatever `choices[0].message.content` holds and throw when the path
      breaks. No thrown error here carries an HTTP response. */
  function Extract(p: Provider, b: Body): (r: Result<Content, Failure>)
    ensures p == Gemini ==>
      (b.Candidates? && b.firstPart.Some? && b.firstPart.value.text.Some? && b.firstPart.value.text.value != "" ==>
        r == Success(Text(b.firstPart.value.text.value)))
      && (b.Candidates? && b.firstPart.Some? && (b.firstPart.value.text.None? || b.firstPart.value.text.value == "") ==>
        r == Success(NonText))
      && (!(b.Candidates? && b.firstPart.Some?) ==> r == Failure(UnexpectedGemini))
    ensures p != Gemini ==>
      (b.Choices? && b.message.Some? ==> r == Success(b.message.value))
      && (!(b.Choices? && b.message.Some?) ==> r == Failure(ResponseShape(p)))
  {
    if p == Gemini then
      match b
      case Candidates(Some(part)) =>
        if part.text.Some? && part.text.value != "" then Success(Text(part.text.value)) else Success(NonText)
      case _ => Failure(UnexpectedGemini)
    else
      match b
      case Choices(Some(c)) => Success(c)
      case _ => Failure(ResponseShape(p))
  }

  /** The outcome of trying one model. */
  datatype Step = Done(completion: Completion) | Retry(failure: Failure) | Abort(failure: Failure)

  /** One iteration of the loop: call the provider, then return, `continue`
      with the failure kept as `lastError`, or rethrow. */
  function Attempt(prompt: string, model: string, oracle: LlmOracle): (s: Step)
    ensures s.Done? ==> s.completion.modelUsed == model && ParseProvider(model).Some?
  {
    match ParseProvider(model)
    case None => Abort(ModelNotSupported(model))
    case Some(p) =>
      match oracle(prompt, p)
      case Answered(b) =>
        (match Extract(p, b)
         case Success(c) => Done(Completion(c, model))
         case Failure(f) => Abort(f))
      case HttpError(s) => if s == 429 || s == 402 then Retry(Http(s)) else Abort(Http(s))
      case ConnRefused => if IsLocal(p) then Retry(ConnectionRefused) else Abort(ConnectionRefused)
      case TransportError => Abort(Transport)
  }

  /** The loop moves on exactly for a 429 or 402 from any known provider
      and for a refused connection to a local server; a refused connection
      to a remote provider, an unknown name and every other error stop it. */
  lemma {:induction false} RetryWorthy(prompt: string, model: string, oracle: LlmOracle)
    ensures Attempt(prompt, model, oracle).Retry? <==>
      ParseProvider(model).Some? &&
      var reply := oracle(prompt, ParseProvider(model).value);
      (reply.HttpError? && (reply.status == 429 || reply.status == 402))
      || (reply.ConnRefused? && IsLocal(ParseProvider(model).value))
    ensures ParseProvider(model).None? ==> Attempt(prompt, model, oracle) == Abort(ModelNotSupported(model))
  {
  }

  /** The loop from the `i`-th model on, `last` being `lastError`. */
  function AskFrom(prompt: string, ms: seq<string>, last: Option<Failure>, oracle: LlmOracle): Result<Completion, LlmError>
    decreases |ms|
  {
    if ms == [] then Failure(AllRateLimited(last))
    else
      match Attempt(prompt, ms[0], oracle)
      case Done(c) => Success(c)
      case Retry(f) => AskFrom(prompt, ms[1..], Some(f), oracle)
      case Abort(f) => Failure(Fatal(f))
  }

  /** What `askLLM(prompt, models)` returns or throws. */
  function Ask(prompt: string, models: Models, oracle: LlmOracle): Result<Completion, LlmError> {
    AskFrom(prompt, ModelList(models), None, oracle)
  }

  /** The index of the first model whose attempt does not ask to move on,
      or `|ms|` when every attempt does. */
  function FirstDecisive(prompt: string, ms: seq<string>, oracle: LlmOracle): (k: nat)
    ensures k <= |ms|
    ensures forall j :: 0 <= j < k ==> Attempt(prompt, ms[j], oracle).Retry?
    ensures k < |ms| ==> !Attempt(prompt, ms[k], oracle).Retry?
    decreases |ms|
  {
    if ms == [] then 0
    else if Attempt(prompt, ms[0], oracle).Retry? then
      var k := 1 + FirstDecisive(prompt, ms[1..], oracle);
      assert forall j :: 1 <= j < k ==> ms[j] == ms[1..][j - 1];
      k
    else 0
  }

  /** How many models the loop calls. */
  function AskAttempts(prompt: string, ms: seq<string>, oracle: LlmOracle): nat {
    var k := FirstDecisive(prompt, ms, oracle);
    if k < |ms| then k + 1 else k
  }

  /** `askLLM` as the loop it is; `attempted` lists the models called. */
  method AskLlm(prompt: string, models: Models, oracle: LlmOracle)
    returns (r: Result<Completion, LlmError>, ghost attempted: seq<string>)
    ensures r == Ask(prompt, models, oracle)
    ensures attempted == ModelList(models)[..AskAttempts(prompt, ModelList(models), oracle)]
  {
    var ms := ModelList(models);
    var lastError: Option<Failure> := None;
    attempted := [];
    ghost var k := FirstDecisive(prompt, ms, oracle);
    var i := 0;
    while i < |ms|
      invariant 0 <= i <= |ms| && i <= k
      invariant AskFrom(prompt, ms, None, oracle) == AskFrom(prompt, ms[i..], lastError, oracle)
      invariant attempted == ms[..i]
    {
      var step := Attempt(prompt, ms[i], oracle);
      attempted := attempted + [ms[i]];
      assert ms[i..][1..] == ms[i + 1..];
      assert ms[..i + 1] == attempted;
      match step {
        case Done(c) =>
          return Success(c), attempted;
        case Abort(f) =>
          return Failure(Fatal(f)), attempted;
        case Retry(f) =>
          lastError := Some(f);
      }
      i := i + 1;
    }
    r := Failure(AllRateLimited(lastError));
  }

  /** The outcome is decided by the first model that does not ask to move
      on: its answer, or its failure as fatal. When every model asks to
      move on, the rate-limit error carries the last model's failure, or
      `null` for an empty list. */
  lemma {:induction false} AskOutcome(prompt: string, ms: seq<string>, last: Option<Failure>, oracle: LlmOracle)
    ensures
      var k := FirstDecisive(prompt, ms, oracle);
      var r := AskFrom(prompt, ms, last, oracle);
      && (k < |ms| && Attempt(prompt, ms[k], oracle).Done? ==> r == Success(Attempt(prompt, ms[k], oracle).completion))
      && (k < |ms| && Attempt(prompt, ms[k], oracle).Abort? ==> r == Failure(Fatal(Attempt(prompt, ms[k], oracle).failure)))
      && (k == |ms| ==> r == Failure(AllRateLimited(if ms == [] then last else Some(Attempt(prompt, ms[|ms| - 1], oracle).failure))))
    decreases |ms|
  {
    if ms != [] {
      var s := Attempt(prompt, ms[0], oracle);
      if s.Retry? {
        AskOutcome(prompt, ms[1..], Some(s.failure), oracle);
        var k := FirstDecisive(prompt, ms, oracle);
        assert k == 1 + FirstDecisive(prompt, ms[1..], oracle);
        if k < |ms| {
          assert ms[k] == ms[1..][k - 1];
        }
        if |ms| > 1 {
          assert ms[|ms| - 1] == ms[1..][|ms[1..]| - 1];
        }
      }
    }
  }

  /** A success names the model that produced it, and that model is the
      first one whose attempt did not ask to move on. */
  lemma {:induction false} AskSuccessModel(prompt: string, ms: seq<string>, last: Option<Failure>, oracle: LlmOracle)
    requires AskFrom(prompt, ms, last, oracle).Success?
    ensures
      var k := FirstDecisive(prompt, ms, oracle);
      k < |ms| && AskFrom(prompt, ms, last, oracle).value.modelUsed == ms[k]
      && Attempt(prompt, ms[k], oracle).Done?
  {
    AskOutcome(prompt, ms, last, oracle);
  }

  /** Only the attempted models matter: oracles that answer the first
      `AskAttempts` models alike give the same outcome, so no model after
      the deciding one is called. */
  lemma {:induction false} AskPrefix(prompt: string, ms: seq<string>, last: Option<Failure>, o1: LlmOracle, o2: LlmOracle)
    requires forall j :: 0 <= j < AskAttempts(prompt, ms, o1) ==>
      Attempt(prompt, ms[j], o1) == Attempt(prompt, ms[j], o2)
    ensures AskFrom(prompt, ms, last, o1) == AskFrom(prompt, ms, last, o2)
    ensures AskAttempts(prompt, ms, o1) == AskAttempts(prompt, ms, o2)
    decreases |ms|
  {
    if ms != [] {
      assert AskAttempts(prompt, ms, o1) >= 1;
      assert Attempt(prompt, ms[0], o1) == Attempt(prompt, ms[0], o2);
      var s := Attempt(prompt, ms[0], o1);
      if s.Retry? {
        assert FirstDecisive(prompt, ms, o1) == 1 + FirstDecisive(prompt, ms[1..], o1);
        assert AskAttempts(prompt, ms, o1) == 1 + AskAttempts(prompt, ms[1..], o1);
        forall j | 0 <= j < AskAttempts(prompt, ms[1..], o1)
          ensures Attempt(prompt, ms[1..][j], o1) == Attempt(prompt, ms[1..][j], o2)
        {
          assert ms[1..][j] == ms[j + 1];
        }
        AskPrefix(prompt, ms[1..], Some(s.failure), o1, o2);
        assert FirstDecisive(prompt, ms, o2) == 1 + FirstDecisive(prompt, ms[1..], o2);
      }
    }
  }

  /** A rate-limited first provider hands over to the next: openai answers
      429 and gemini's text becomes the answer, credited to gemini. */
  lemma {:induction false} RateLimitFallsThrough(prompt: string, answer: string, oracle: LlmOracle)
    requires oracle(prompt, OpenAI) == HttpError(429)
    requires answer != ""
    requires oracle(prompt, Gemini) == Answered(Candidates(Some(GeminiPart(Some(answer)))))
    ensures Ask(prompt, Many(["openai", "gemini"]), oracle) == Success(Completion(Text(answer), "gemini"))
  {
    var ms := ["openai", "gemini"];
    assert ms[1..] == ["gemini"];
  }

  /** A refused connection is fatal for a remote provider, however many
      models follow it. */
  lemma {:induction false} RemoteRefusalIsFatal(prompt: string, rest: seq<string>, oracle: LlmOracle)
    requires oracle(prompt, OpenAI) == ConnRefused
    ensures Ask(prompt, Many(["openai"] + rest), oracle) == Failure(Fatal(ConnectionRefused))
  {
    assert (["openai"] + rest)[0] == "openai";
  }

  /** A local server that is not running is skipped; when it is the last
      model, the rate-limit error keeps the refusal as its last error. */
  lemma {:induction false} LocalRefusalFallsThrough(prompt: string, oracle: LlmOracle)
    requires oracle(prompt, OpenAI) == HttpError(402)
    requires oracle(prompt, Ollama) == ConnRefused
    ensures Ask(prompt, Many(["openai", "ollama"]), oracle) == Failure(AllRateLimited(Some(ConnectionRefused)))
  {
    var ms := ["openai", "ollama"];
    assert ms[1..] == ["ollama"];
    assert ms[1..][1..] == [];
  }

  /** An empty model list throws the rate-limit error with no last error. */
  lemma {:induction false} EmptyModelList(prompt: string, oracle: LlmOracle)
    ensures Ask(prompt, Many([]), oracle) == Failure(AllRateLimited(None))
  {
  }
}
