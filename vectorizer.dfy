/** The embedding side of the backend: `getEmbedding`, a dispatch on the
    provider name, and `getEmbeddingWithFallback`, which keeps the
    preferred providers that can embed and have a key, then tries them in
    order until one answers. Each provider's HTTP call is an oracle. */
module Vectorizer {
  import opened Wrappers
  import opened Seqs

  /** A JavaScript number. */
  datatype JsNumber = Finite(value: real) | Infinity(negative: bool) | NaN

  /** One element of an embedding array: a number, or some other JavaScript
      value together with what `Number(v)` turns it into. */
  datatype JsValue = Num(n: JsNumber) | NonNum(asNumber: JsNumber)

  /** What `getEmbedding` hands back on success: the array found in the
      provider's reply, or something else (`undefined` when the reply lacks
      the field the adapter reads). */
  datatype Embedding = Vector(elems: seq<JsValue>) | NotAnArray

  /** The providers `getEmbedding` dispatches to. */
  datatype EmbedProvider = OpenAI | OpenRouter | Gemini | DeepSeek

  function ParseEmbedProvider(name: string): Option<EmbedProvider> {
    if name == "openai" then Some(OpenAI)
    else if name == "openrouter" then Some(OpenRouter)
    else if name == "gemini" then Some(Gemini)
    else if name == "deepseek" then Some(DeepSeek)
    else None
  }

  /** Why one provider call threw: an HTTP error status, a transport error,
      or a reply whose path to the embedding could not be followed. */
  datatype CallFailure = HttpStatus(status: int) | Transport | ResponseShape

  /** The reply of `provider` to a request embedding `text`. */
  type EmbedOracle = (EmbedProvider, string) -> Result<Embedding, CallFailure>

  datatype EmbedError =
    | CallFailed(provider: EmbedProvider, cause: CallFailure)
    | ModelNotSupported
    | NoProvidersAvailable

  /** `getEmbedding(text, model)`. */
  function GetEmbedding(text: string, model: string, oracle: EmbedOracle): (r: Result<Embedding, EmbedError>)
    ensures r == Failure(ModelNotSupported) <==> ParseEmbedProvider(model).None?
    ensures ParseEmbedProvider(model).Some? ==>
      var p := ParseEmbedProvider(model).value;
      (oracle(p, text).Success? ==> r == Success(oracle(p, text).value))
      && (oracle(p, text).Failure? ==> r == Failure(CallFailed(p, oracle(p, text).error)))
  {
    match ParseEmbedProvider(model)
    case None => Failure(ModelNotSupported)
    case Some(p) =>
      match oracle(p, text)
      case Success(e) => Success(e)
      case Failure(f) => Failure(CallFailed(p, f))
  }

  /** `getEmbedding` rejects every name other than its four providers. */
  lemma {:induction false} UnsupportedModel(text: string, model: string, oracle: EmbedOracle)
    requires model != "openai" && model != "openrouter" && model != "gemini" && model != "deepseek"
    ensures GetEmbedding(text, model, oracle) == Failure(ModelNotSupported)
  {
  }

  /** The process environment as far as the embedding filter reads it. */
  datatype Env = Env(openaiKey: Option<string>, geminiKey: Option<string>)

  /** `!!process.env.X`: set and not "". */
  predicate KeySet(k: Option<string>) {
    k.Some? && k.value != ""
  }

  /** A preferred provider survives the filter: it is one of the two the
      filter calls supported, and its key is set. */
  predicate Eligible(name: string, env: Env) {
    (name == "openai" && KeySet(env.openaiKey)) || (name == "gemini" && KeySet(env.geminiKey))
  }

  /** `preferredProviders.filter(...)`: the candidate list. */
  function AvailableProviders(prefs: seq<string>, env: Env): seq<string> {
    Filter(prefs, name => Eligible(name, env))
  }

  /** The candidates are the eligible preferences, in their order, each as
      often as it is preferred; every other name, including the providers
      `getEmbedding` could serve (`openrouter`, `deepseek`), is dropped. */
  lemma {:induction false} AvailableProvidersSpec(prefs: seq<string>, env: Env)
    ensures IsSubsequence(AvailableProviders(prefs, env), prefs)
    ensures forall i :: 0 <= i < |AvailableProviders(prefs, env)| ==> Eligible(AvailableProviders(prefs, env)[i], env)
    ensures forall x :: multiset(AvailableProviders(prefs, env))[x] == if Eligible(x, env) then multiset(prefs)[x] else 0
  {
    FilterOrder(prefs, name => Eligible(name, env));
    FilterCount(prefs, name => Eligible(name, env));
  }

  /** The preference list used when the caller gives none (ingestion). */
  const DefaultEmbeddingProviders: seq<string> := ["openai", "gemini"]

  /** With the default preference, openai is tried before gemini, each only
      when its key is set. */
  lemma {:induction false} DefaultCandidates(env: Env)
    ensures AvailableProviders(DefaultEmbeddingProviders, env)
      == (if KeySet(env.openaiKey) then ["openai"] else []) + (if KeySet(env.geminiKey) then ["gemini"] else [])
  {
    var prefs := DefaultEmbeddingProviders;
    assert prefs[1..] == ["gemini"];
    assert prefs[1..][1..] == [];
    assert AvailableProviders(prefs[1..], env) == (if KeySet(env.geminiKey) then ["gemini"] else []) + [];
  }

  /** Try the candidates in order from `last`, the error seen so far: the
      first success is the result; when none is left, the last error is
      thrown, or "No embedding providers available" if there was none. */
  function TryInOrder(text: string, cands: seq<string>, last: Option<EmbedError>, oracle: EmbedOracle): Result<Embedding, EmbedError>
    decreases |cands|
  {
    if cands == [] then Failure(last.GetOr(NoProvidersAvailable))
    else
      match GetEmbedding(text, cands[0], oracle)
      case Success(e) => Success(e)
      case Failure(err) => TryInOrder(text, cands[1..], Some(err), oracle)
  }

  /** What `getEmbeddingWithFallback(text, prefs)` returns or throws. */
  function FallbackOutcome(text: string, prefs: seq<string>, env: Env, oracle: EmbedOracle): Result<Embedding, EmbedError> {
    TryInOrder(text, AvailableProviders(prefs, env), None, oracle)
  }

  /** How many candidates the loop calls: up to and including the first
      that succeeds, or all of them. */
  function Attempts(text: string, cands: seq<string>, oracle: EmbedOracle): (n: nat)
    ensures n <= |cands|
    decreases |cands|
  {
    if cands == [] then 0
    else if GetEmbedding(text, cands[0], oracle).Success? then 1
    else 1 + Attempts(text, cands[1..], oracle)
  }

  /** `getEmbeddingWithFallback`: the filter, then the loop that keeps the
      last error and returns on the first success. `attempted` lists the
      providers called, in order. */
  method GetEmbeddingWithFallback(text: string, prefs: seq<string>, env: Env, oracle: EmbedOracle)
    returns (r: Result<Embedding, EmbedError>, ghost attempted: seq<string>)
    ensures r == FallbackOutcome(text, prefs, env, oracle)
    ensures attempted == AvailableProviders(prefs, env)[..Attempts(text, AvailableProviders(prefs, env), oracle)]
  {
    var cands := AvailableProviders(prefs, env);
    var lastError: Option<EmbedError> := None;
    attempted := [];
    var i := 0;
    while i < |cands|
      invariant 0 <= i <= |cands|
      invariant TryInOrder(text, cands, None, oracle) == TryInOrder(text, cands[i..], lastError, oracle)
      invariant Attempts(text, cands, oracle) == i + Attempts(text, cands[i..], oracle)
      invariant attempted == cands[..i]
    {
      var res := GetEmbedding(text, cands[i], oracle);
      attempted := attempted + [cands[i]];
      assert cands[i..][1..] == cands[i + 1..];
      if res.Success? {
        assert cands[..i + 1] == attempted;
        return res, attempted;
      }
      lastError := Some(res.error);
      i := i + 1;
    }
    r := Failure(lastError.GetOr(NoProvidersAvailable));
  }

  /** The fallback succeeds exactly when some candidate succeeds, and then
      returns the embedding of the first candidate that does, every earlier
      one having failed, whatever the kind of failure. */
  lemma {:induction false} FallbackFirstSuccess(text: string, cands: seq<string>, last: Option<EmbedError>, oracle: EmbedOracle)
    ensures TryInOrder(text, cands, last, oracle).Success?
      <==> exists k :: 0 <= k < |cands| && GetEmbedding(text, cands[k], oracle).Success?
    ensures TryInOrder(text, cands, last, oracle).Success? ==>
      var k := Attempts(text, cands, oracle) - 1;
      && 0 <= k < |cands|
      && (forall j :: 0 <= j < k ==> GetEmbedding(text, cands[j], oracle).Failure?)
      && TryInOrder(text, cands, last, oracle) == GetEmbedding(text, cands[k], oracle)
    decreases |cands|
  {
    if cands != [] {
      var res := GetEmbedding(text, cands[0], oracle);
      if res.Failure? {
        FallbackFirstSuccess(text, cands[1..], Some(res.error), oracle);
        if exists k :: 0 <= k < |cands| && GetEmbedding(text, cands[k], oracle).Success? {
          var k :| 0 <= k < |cands| && GetEmbedding(text, cands[k], oracle).Success?;
          assert k > 0 && cands[1..][k - 1] == cands[k];
        }
        if TryInOrder(text, cands, last, oracle).Success? {
          var k := Attempts(text, cands[1..], oracle) - 1;
          forall j | 0 <= j < k + 1 ensures GetEmbedding(text, cands[j], oracle).Failure? {
            if j > 0 { assert cands[j] == cands[1..][j - 1]; }
          }
        }
      }
    }
  }

  /** When every candidate fails, the error thrown is that of the last one,
      or "No embedding providers available" when there is no candidate. */
  lemma {:induction false} FallbackExhausted(text: string, cands: seq<string>, last: Option<EmbedError>, oracle: EmbedOracle)
    requires forall k :: 0 <= k < |cands| ==> GetEmbedding(text, cands[k], oracle).Failure?
    ensures TryInOrder(text, cands, last, oracle) == Failure(
      if cands == [] then last.GetOr(NoProvidersAvailable)
      else GetEmbedding(text, cands[|cands| - 1], oracle).error)
    ensures Attempts(text, cands, oracle) == |cands|
    decreases |cands|
  {
    if cands != [] {
      var res := GetEmbedding(text, cands[0], oracle);
      assert res.Failure?;
      forall k | 0 <= k < |cands| - 1 ensures GetEmbedding(text, cands[1..][k], oracle).Failure? {
        assert cands[1..][k] == cands[k + 1];
      }
      FallbackExhausted(text, cands[1..], Some(res.error), oracle);
    }
  }

  /** Only the attempted candidates matter: two oracles that answer them
      alike give the same outcome and the same number of calls, so no
      candidate after the first success is ever asked. */
  lemma {:induction false} FallbackPrefix(text: string, cands: seq<string>, last: Option<EmbedError>, o1: EmbedOracle, o2: EmbedOracle)
    requires forall j :: 0 <= j < Attempts(text, cands, o1) ==>
      GetEmbedding(text, cands[j], o1) == GetEmbedding(text, cands[j], o2)
    ensures TryInOrder(text, cands, last, o1) == TryInOrder(text, cands, last, o2)
    ensures Attempts(text, cands, o1) == Attempts(text, cands, o2)
    decreases |cands|
  {
    if cands != [] {
      assert GetEmbedding(text, cands[0], o1) == GetEmbedding(text, cands[0], o2);
      var res := GetEmbedding(text, cands[0], o1);
      if res.Failure? {
        forall j | 0 <= j < Attempts(text, cands[1..], o1)
          ensures GetEmbedding(text, cands[1..][j], o1) == GetEmbedding(text, cands[1..][j], o2)
        {
          assert cands[1..][j] == cands[j + 1];
        }
        FallbackPrefix(text, cands[1..], Some(res.error), o1, o2);
      }
    }
  }

  /** The chat handler's default preference,
      `['openrouter', 'deepseek', 'gemini', 'openai']`. */
  const ChatEmbeddingProviders: seq<string> := ["openrouter", "deepseek", "gemini", "openai"]

  /** Under the chat default the effective order is gemini, then openai,
      each only when its key is set. */
  lemma {:induction false} ChatDefaultCandidates(env: Env)
    ensures AvailableProviders(ChatEmbeddingProviders, env)
      == (if KeySet(env.geminiKey) then ["gemini"] else []) + (if KeySet(env.openaiKey) then ["openai"] else [])
  {
    var p := ChatEmbeddingProviders;
    assert p[1..] == ["deepseek", "gemini", "openai"];
    assert p[1..][1..] == ["gemini", "openai"];
    assert p[1..][1..][1..] == ["openai"];
    assert p[1..][1..][1..][1..] == [];
  }
}
