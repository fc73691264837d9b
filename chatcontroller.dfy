/** The chat handler and its tables: embed the question, gate on the
    closest stored chunk, build the context and the prompt, ask the
    models in order, clean the answer up, and log the exchange; plus the
    history query and session deletion over the ChatLog and ChatSession
    tables. The nearest-neighbour query is an input. */
module ChatController {
  import opened Wrappers
  import opened Seqs
  import opened JsText
  import opened Vectorizer
  import opened LlmClient

  /** The bot configuration as far as `chat` reads it; `None` is a missing
      key. */
  datatype BotConfig = BotConfig(
    rejectionMessage: Option<string>,
    model: Option<Models>,
    embeddingProviders: Option<seq<string>>)

  const DefaultRejection: string := "Sorry, I can only answer questions related to this domain."

  /** `config.rejectionMessage || default`: a missing or empty message
      falls back to the default. */
  function RejectionSetting(config: BotConfig): (m: string)
    ensures m != ""
    ensures config.rejectionMessage.Some? && config.rejectionMessage.value != "" ==> m == config.rejectionMessage.value
    ensures !(config.rejectionMessage.Some? && config.rejectionMessage.value != "") ==> m == DefaultRejection
  {
    if config.rejectionMessage.Some? && config.rejectionMessage.value != "" then config.rejectionMessage.value
    else DefaultRejection
  }

  /** The rejection text answered and looked for: the setting, trimmed. */
  function Rejection(config: BotConfig): string {
    Trim(RejectionSetting(config))
  }

  /** `config.model || 'openai'`: an array, even an empty one, is kept. */
  function ConfiguredModel(config: BotConfig): (m: Models)
    ensures m.One? ==> m.name != ""
    ensures config.model.Some? && config.model.value.Many? ==> m == config.model.value
    ensures config.model.None? ==> m == One("openai")
    ensures config.model.Some? && config.model.value.One? && config.model.value.name != "" ==> m == config.model.value
    ensures config.model.Some? && config.model.value.One? && config.model.value.name == "" ==> m == One("openai")
  {
    match config.model
    case Some(Many(ns)) => Many(ns)
    case Some(One(n)) => if n != "" then One(n) else One("openai")
    case None => One("openai")
  }

  /** `config.embeddingProviders || [...]`. */
  function EmbeddingPreference(config: BotConfig): seq<string> {
    config.embeddingProviders.GetOr(ChatEmbeddingProviders)
  }

  /** One row of the nearest-neighbour query. */
  datatype Hit = Hit(content: string, distance: real)

  const MaxDistance: real := 0.7

  /** `!results.length || results[0].distance > 0.7`. */
  predicate OutOfScope(hits: seq<Hit>) {
    |hits| == 0 || hits[0].distance > MaxDistance
  }

  /** The gate looks only at the first row: it rejects an empty result and
      a closest distance strictly above 0.7, and lets 0.7 itself through. */
  lemma {:induction false} GateThreshold(hits: seq<Hit>)
    ensures |hits| == 0 ==> OutOfScope(hits)
    ensures |hits| > 0 && hits[0].distance == 0.7 ==> !OutOfScope(hits)
    ensures OutOfScope(hits) <==> |hits| == 0 || hits[0].distance > 0.7
    ensures |hits| > 0 ==> (OutOfScope(hits) <==> OutOfScope(hits[..1]))
  {
  }

  function Contents(hits: seq<Hit>): (cs: seq<string>)
    ensures |cs| == |hits|
    ensures forall i :: 0 <= i < |hits| ==> cs[i] == hits[i].content
  {
    if hits == [] then []
    else
      var rest := Contents(hits[1..]);
      assert forall i :: 1 <= i < |hits| ==> ([hits[0].content] + rest)[i] == rest[i - 1];
      [hits[0].content] + rest
  }

  /** `results.map(r => r.content).join('\n')`. */
  function Context(hits: seq<Hit>): string {
    Join(Contents(hits), "\n")
  }

  /** Each row's content appears in the context at its offset, in result
      order, with a newline between neighbours and nothing after the last. */
  lemma {:induction false} ContextLayout(hits: seq<Hit>, i: nat)
    requires i < |hits|
    ensures
      var o := JoinOffset(Contents(hits), "\n", i);
      var c := Context(hits);
      && o + |hits[i].content| <= |c| && c[o..o + |hits[i].content|] == hits[i].content
      && (i + 1 < |hits| ==> o + |hits[i].content| < |c| && c[o + |hits[i].content|] == '\n')
      && (i + 1 == |hits| ==> o + |hits[i].content| == |c|)
  {
    var o := JoinOffset(Contents(hits), "\n", i);
    var k := o + |hits[i].content|;
    JoinLayout(Contents(hits), "\n", i, o, Context(hits));
    if i + 1 < |hits| {
      assert Context(hits)[k..k + 1] == "\n";
      assert Context(hits)[k] == Context(hits)[k..k + 1][0];
    }
  }

  const PromptInstructions: string :=
    "\n\nYou are an AI assistant. Answer the user's question ONLY using the information provided in the context above. If the answer is not present in the context, reply: \""

  /** The prompt sent to the models; it quotes the untrimmed setting. */
  function Prompt(context: string, rejectionSetting: string, message: string): string {
    "Context:\n" + context + PromptInstructions + rejectionSetting + "\".\n\nUser: " + message + "\nAI:"
  }

  const AllModels: seq<string> := ["openai", "gemini", "deepseek", "ollama"]

  function OtherThan(m: string): string -> bool {
    (x: string) => x != m
  }

  /** The model order: an array verbatim, a name first and then the other
      known models. */
  function PreferredModels(model: Models): seq<string> {
    match model
    case Many(ns) => ns
    case One(m) => [m] + Filter(AllModels, OtherThan(m))
  }

  /** `allModels.filter(m => m !== model)`, spelt out. */
  lemma {:induction false} OtherModels(m: string)
    ensures Filter(AllModels, OtherThan(m))
      == (if m != "openai" then ["openai"] else []) + (if m != "gemini" then ["gemini"] else [])
       + (if m != "deepseek" then ["deepseek"] else []) + (if m != "ollama" then ["ollama"] else [])
  {
    var a := AllModels;
    assert a[1..] == ["gemini", "deepseek", "ollama"];
    assert a[1..][1..] == ["deepseek", "ollama"];
    assert a[1..][1..][1..] == ["ollama"];
    assert a[1..][1..][1..][1..] == [];
  }

  /** The known models are four different names. */
  lemma {:induction false} AllModelsDistinct()
    ensures Distinct(AllModels)
  {
    var a := AllModels;
    assert a[0][0] == 'o' && a[1][0] == 'g' && a[2][0] == 'd' && a[3][0] == 'o';
    assert a[0][1] == 'p' && a[3][1] == 'l';
    forall i, j | 0 <= i < j < |a|
      ensures a[i] != a[j]
    {
      if i == 0 && j == 3 {
        assert a[i][1] != a[j][1];
      } else {
        assert a[i][0] != a[j][0];
      }
    }
  }

  /** For a single name: it comes first, every known model appears, the
      others keep their order, and nothing repeats. */
  lemma {:induction false} PreferredModelsSpec(m: string)
    ensures var ms := PreferredModels(One(m));
      && |ms| > 0 && ms[0] == m
      && IsSubsequence(ms[1..], AllModels)
      && (forall x :: x in ms <==> x == m || x in AllModels)
      && Distinct(ms)
  {
    var ms := PreferredModels(One(m));
    var rest := Filter(AllModels, OtherThan(m));
    assert ms == [m] + rest;
    assert ms[1..] == rest;
    FilterOrder(AllModels, OtherThan(m));
    FilterMembers(AllModels, OtherThan(m));
    AllModelsDistinct();
    FilterDistinct(AllModels, OtherThan(m));
    DistinctCons(m, rest, ms);
  }

  /** A list in the configuration is tried exactly as given. */
  lemma {:induction false} PreferredModelsList(ns: seq<string>)
    ensures PreferredModels(Many(ns)) == ns
  {
  }

  // ---- Removing a hedge prefix ----

  /** The phrases of the hedge pattern, in the order it tries them. */
  const HedgePhrases: seq<string> := [
    "According to the context", "Based on the context", "From the context",
    "According to context", "Based on context", "From context",
    "According to the text", "As per the context", "As per context",
    "Per the context", "Per context", "According to the provided context",
    "Based on the provided context", "From the provided context",
    "According to provided context", "Based on provided context",
    "From provided context"]

  /** ASCII case folding, which is all the non-Unicode `/i` flag applies to
      these phrases. */
  function Lower(c: char): char {
    if 'A' <= c <= 'Z' then (c as int + 32) as char else c
  }

  /** `s` begins with `p`, ignoring case. */
  predicate StartsWithIgnoringCase(s: string, p: string) {
    |p| <= |s| && forall i :: 0 <= i < |p| ==> Lower(s[i]) == Lower(p[i])
  }

  /** `[,:\s-]`. */
  predicate IsSeparator(c: char) {
    c == ',' || c == ':' || c == '-' || IsSpace(c)
  }

  /** The phrase matches at the start of `s` and a separator follows it. */
  predicate HedgeAt(s: string, p: string) {
    StartsWithIgnoringCase(s, p) && |p| < |s| && IsSeparator(s[|p|])
  }

  /** The first phrase, from index `from` on, that the pattern can take:
      the alternatives are tried in order until one is followed by a
      separator. */
  function FirstHedge(s: string, from: nat): (r: Option<nat>)
    ensures r.Some? ==>
      from <= r.value < |HedgePhrases| && HedgeAt(s, HedgePhrases[r.value])
      && forall k :: from <= k < r.value ==> !HedgeAt(s, HedgePhrases[k])
    ensures r.None? ==> forall k :: from <= k < |HedgePhrases| ==> !HedgeAt(s, HedgePhrases[k])
    decreases |HedgePhrases| - from
  {
    if from >= |HedgePhrases| then None
    else if HedgeAt(s, HedgePhrases[from]) then Some(from)
    else FirstHedge(s, from + 1)
  }

  /** The length of the run of separators `[,:\s-]+` takes, greedily. */
  function SeparatorRun(s: string): (n: nat)
    ensures n <= |s|
    ensures forall i :: 0 <= i < n ==> IsSeparator(s[i])
    ensures n < |s| ==> !IsSeparator(s[n])
  {
    if s != [] && IsSeparator(s[0]) then 1 + SeparatorRun(s[1..]) else 0
  }

  /** `s.replace(/^(...)[,:\s-]+/i, '')`. */
  function StripHedge(s: string): string {
    match FirstHedge(s, 0)
    case None => s
    case Some(i) =>
      var k := |HedgePhrases[i]|;
      s[k + SeparatorRun(s[k..])..]
  }

  /** `r` is what is left of `s` once phrase `k`, taken case-blind, and the
      whole run of separators after it are cut off. */
  predicate HedgeCut(s: string, r: string, k: nat)
    requires k < |HedgePhrases|
  {
    var n := |HedgePhrases[k]|;
    && StartsWithIgnoringCase(s, HedgePhrases[k])
    && n < |s| - |r|
    && (forall i :: n <= i < |s| - |r| ==> IsSeparator(s[i]))
    && s[|s| - |r|..] == r
    && (r != [] ==> !IsSeparator(r[0]))
  }

  /** The text is left alone exactly when it does not start with a phrase
      followed by a separator. Otherwise one phrase and the whole separator
      run after it are removed, and nothing else. */
  lemma {:induction false} StripHedgeSpec(s: string)
    ensures StripHedge(s) == s <==> forall k :: 0 <= k < |HedgePhrases| ==> !HedgeAt(s, HedgePhrases[k])
    ensures StripHedge(s) != s ==> exists k :: 0 <= k < |HedgePhrases| && HedgeCut(s, StripHedge(s), k)
  {
    var m := FirstHedge(s, 0);
    if m.Some? {
      var k := m.value;
      var p := HedgePhrases[k];
      var run := SeparatorRun(s[|p|..]);
      var r := s[|p| + run..];
      assert StripHedge(s) == r;
      CutFacts(s, p, run, r);
      assert HedgeCut(s, r, k);
    }
  }

  /** The facts about one cut, apart from the phrase table. */
  lemma {:induction false} CutFacts(s: string, p: string, run: nat, r: string)
    requires HedgeAt(s, p)
    requires run <= |s| - |p| && r == s[|p| + run..]
    requires forall i :: 0 <= i < run ==> IsSeparator(s[|p|..][i])
    requires run < |s| - |p| ==> !IsSeparator(s[|p|..][run])
    ensures |p| < |s| - |r| && s[|s| - |r|..] == r
    ensures forall i :: |p| <= i < |s| - |r| ==> IsSeparator(s[i])
    ensures r != [] ==> !IsSeparator(r[0])
  {
    var n := |p|;
    assert s[n..][0] == s[n];
    assert run >= 1;
    forall i | n <= i < |s| - |r|
      ensures IsSeparator(s[i])
    {
      assert s[i] == s[n..][i - n];
    }
    if r != [] {
      assert r[0] == s[n..][run];
    }
  }

  /** A separator run followed by something else is taken whole. */
  lemma {:induction false} SeparatorRunOf(sep: string, rest: string)
    requires forall i :: 0 <= i < |sep| ==> IsSeparator(sep[i])
    requires rest == [] || !IsSeparator(rest[0])
    ensures SeparatorRun(sep + rest) == |sep|
    decreases |sep|
  {
    if sep == [] {
      assert sep + rest == rest;
    } else {
      assert (sep + rest)[1..] == sep[1..] + rest;
      SeparatorRunOf(sep[1..], rest);
    }
  }

  /** Lower-cased character `i` of `s`, or NUL past its end. */
  function LowerAt(s: string, i: nat): char {
    if i < |s| then Lower(s[i]) else 0 as char
  }

  /** Which phrase a text beginning with one must begin with, read off a few
      telling characters: no two phrases agree on all of them. */
  function PhraseOf(s: string): nat {
    match LowerAt(s, 0)
    case 'a' =>
      if LowerAt(s, 1) == 's' then (if LowerAt(s, 7) == 't' then 7 else 8)
      else if LowerAt(s, 13) == 'c' then 3
      else if LowerAt(s, 13) == 'p' then 14
      else if LowerAt(s, 17) == 'c' then 0
      else if LowerAt(s, 17) == 't' then 6
      else 11
    case 'b' =>
      if LowerAt(s, 9) == 'c' then 4
      else if LowerAt(s, 9) == 'p' then 15
      else if LowerAt(s, 13) == 'c' then 1
      else 12
    case 'f' =>
      if LowerAt(s, 5) == 'c' then 5
      else if LowerAt(s, 5) == 'p' then 16
      else if LowerAt(s, 9) == 'c' then 2
      else 13
    case _ => if LowerAt(s, 4) == 't' then 9 else 10
  }

  /** Every phrase is longer than the highest telling position it reaches,
      and starts with a letter. */
  lemma {:induction false} PhraseShape(k: nat)
    requires k < |HedgePhrases|
    ensures |HedgePhrases[k]| > 9 && !IsSeparator(HedgePhrases[k][0])
  {
  }

  /** A text that begins with phrase `k`, case-blind, is classified as `k`;
      so it begins with no other phrase. */
  lemma {:induction false} PhraseOfHedge(s: string, k: nat)
    requires k < |HedgePhrases| && StartsWithIgnoringCase(s, HedgePhrases[k])
    ensures PhraseOf(s) == k
  {
    if k in {0, 6, 11} {
      PhraseOfAccordingThe(s, k);
    } else if k in {3, 14} {
      PhraseOfAccording(s, k);
    } else if k in {1, 4, 12, 15} {
      PhraseOfBased(s, k);
    } else if k in {2, 5, 13, 16} {
      PhraseOfFrom(s, k);
    } else {
      PhraseOfPer(s, k);
    }
  }

  /** The phrases that begin "According to the". */
  lemma {:induction false} PhraseOfAccordingThe(s: string, k: nat)
    requires k in {0, 6, 11} && StartsWithIgnoringCase(s, HedgePhrases[k])
    ensures PhraseOf(s) == k
  {
    Telling(s, HedgePhrases[k]);
  }

  /** The other phrases that begin "According to". */
  lemma {:induction false} PhraseOfAccording(s: string, k: nat)
    requires k in {3, 14} && StartsWithIgnoringCase(s, HedgePhrases[k])
    ensures PhraseOf(s) == k
  {
    Telling(s, HedgePhrases[k]);
  }

  /** The phrases that begin "Based on". */
  lemma {:induction false} PhraseOfBased(s: string, k: nat)
    requires k in {1, 4, 12, 15} && StartsWithIgnoringCase(s, HedgePhrases[k])
    ensures PhraseOf(s) == k
  {
    Telling(s, HedgePhrases[k]);
  }

  /** The phrases that begin "From". */
  lemma {:induction false} PhraseOfFrom(s: string, k: nat)
    requires k in {2, 5, 13, 16} && StartsWithIgnoringCase(s, HedgePhrases[k])
    ensures PhraseOf(s) == k
  {
    Telling(s, HedgePhrases[k]);
  }

  /** The phrases that begin "As per" or "Per". */
  lemma {:induction false} PhraseOfPer(s: string, k: nat)
    requires k in {7, 8, 9, 10} && StartsWithIgnoringCase(s, HedgePhrases[k])
    ensures PhraseOf(s) == k
  {
    Telling(s, HedgePhrases[k]);
  }

  /** The telling characters of a text that begins with `p`, case-blind. */
  lemma {:induction false} Telling(s: string, p: string)
    requires StartsWithIgnoringCase(s, p) && |p| > 9
    ensures LowerAt(s, 0) == Lower(p[0]) && LowerAt(s, 1) == Lower(p[1])
    ensures LowerAt(s, 4) == Lower(p[4]) && LowerAt(s, 5) == Lower(p[5])
    ensures LowerAt(s, 7) == Lower(p[7]) && LowerAt(s, 9) == Lower(p[9])
    ensures 13 < |p| ==> LowerAt(s, 13) == Lower(p[13])
    ensures 17 < |p| ==> LowerAt(s, 17) == Lower(p[17])
  {
  }

  /** The pattern takes the one phrase a text begins with. */
  lemma {:induction false} FirstHedgeOf(s: string, k: nat)
    requires k < |HedgePhrases| && HedgeAt(s, HedgePhrases[k])
    ensures FirstHedge(s, 0) == Some(k)
  {
    var m := FirstHedge(s, 0);
    PhraseOfHedge(s, k);
    PhraseOfHedge(s, m.value);
  }

  /** Any phrase and its separators strip to the rest. */
  lemma {:induction false} StripFirst(k: nat, sep: string, rest: string)
    requires k < |HedgePhrases|
    requires sep != [] && forall i :: 0 <= i < |sep| ==> IsSeparator(sep[i])
    requires rest == [] || !IsSeparator(rest[0])
    ensures StripHedge(HedgePhrases[k] + sep + rest) == rest
  {
    var p := HedgePhrases[k];
    var s := p + sep + rest;
    CutAfter(p, sep, rest, s);
    FirstHedgeOf(s, k);
  }

  /** A text made of a prefix, a separator run and a rest: the prefix
      matches with a separator after it, and the run is taken whole. */
  lemma {:induction false} CutAfter(p: string, sep: string, rest: string, s: string)
    requires sep != [] && forall i :: 0 <= i < |sep| ==> IsSeparator(sep[i])
    requires rest == [] || !IsSeparator(rest[0])
    requires s == p + sep + rest
    ensures HedgeAt(s, p)
    ensures s[|p| + SeparatorRun(s[|p|..])..] == rest
  {
    assert s[..|p|] == p;
    assert s[|p|] == sep[0];
    assert s[|p|..] == sep + rest;
    SeparatorRunOf(sep, rest);
    assert s[|p| + |sep|..] == rest;
  }

  /** Only one phrase goes: after the first phrase and its separators,
      the rest is kept even when it starts with another hedge. */
  lemma {:induction false} StripHedgeOnce(k: nat, k2: nat, sep: string, rest: string)
    requires k < |HedgePhrases| && k2 < |HedgePhrases|
    requires sep != [] && forall i :: 0 <= i < |sep| ==> IsSeparator(sep[i])
    requires rest == [] || !IsSeparator(rest[0])
    ensures StripHedge(HedgePhrases[k] + sep + HedgePhrases[k2] + sep + rest) == HedgePhrases[k2] + sep + rest
  {
    var p0, p1 := HedgePhrases[k], HedgePhrases[k2];
    var t := p1 + sep + rest;
    assert p0 + sep + p1 + sep + rest == p0 + sep + t;
    PhraseShape(k2);
    assert t[0] == p1[0];
    StripFirst(k, sep, t);
  }

  // ---- Collapsing onto the rejection message ----

  /** `index !== -1 ? rejection : raw`. */
  function Collapse(raw: string, rejection: string): string {
    if IndexOf(raw, rejection) != -1 then rejection else raw
  }

  /** An answer that contains the rejection text anywhere becomes exactly
      that text; any other answer is kept. */
  lemma {:induction false} CollapseSpec(raw: string, rejection: string)
    ensures Contains(raw, rejection) ==> Collapse(raw, rejection) == rejection
    ensures !Contains(raw, rejection) ==> Collapse(raw, rejection) == raw
  {
    IndexOfSpec(raw, rejection);
  }

  /** The rejection text is a fixed point, and collapsing twice is
      collapsing once. */
  lemma {:induction false} CollapseIdempotent(raw: string, rejection: string)
    ensures Collapse(rejection, rejection) == rejection
    ensures Collapse(Collapse(raw, rejection), rejection) == Collapse(raw, rejection)
  {
    ContainsSelf(rejection);
    IndexOfSpec(rejection, rejection);
    IndexOfSpec(raw, rejection);
  }

  /** A rejection setting made only of white space trims to "", which
      every answer contains, so every answer in scope becomes "". */
  lemma {:induction false} BlankRejectionEmptiesAnswers(config: BotConfig, raw: string)
    requires config.rejectionMessage.Some? && config.rejectionMessage.value != ""
    requires IsBlank(config.rejectionMessage.value)
    ensures Rejection(config) == ""
    ensures PostProcess(raw, Rejection(config)) == ""
  {
    TrimEmptyIffBlank(config.rejectionMessage.value);
    var stripped := StripHedge(Trim(raw));
    assert OccursAt(stripped, "", 0);
    IndexOfSpec(stripped, "");
  }

  /** What happens to the model's text: trim, drop one hedge prefix, then
      collapse onto the rejection text. */
  function PostProcess(raw: string, rejection: string): (r: string)
    ensures r == rejection || IsSuffix(r, Trim(raw))
  {
    var t := Trim(raw);
    var stripped := StripHedge(t);
    StripHedgeSuffix(t);
    assert Collapse(stripped, rejection) in {stripped, rejection};
    Collapse(stripped, rejection)
  }

  predicate IsSuffix(r: string, s: string) {
    |r| <= |s| && s[|s| - |r|..] == r
  }

  lemma {:induction false} StripHedgeSuffix(s: string)
    ensures IsSuffix(StripHedge(s), s)
  {
    StripHedgeSpec(s);
  }

  /** A rejection text that itself starts with a hedge is not recognised
      when the model replies with exactly that text: the hedge is stripped
      and what is left is too short to contain the rejection. */
  lemma {:induction false} HedgedRejectionNotCollapsed(k: nat, j: string, sep: string, rest: string)
    requires k < |HedgePhrases|
    requires sep != [] && forall i :: 0 <= i < |sep| ==> IsSeparator(sep[i])
    requires rest == [] || !IsSeparator(rest[0])
    requires j == HedgePhrases[k] + sep + rest && Trim(j) == j
    ensures PostProcess(j, j) == rest
  {
    StripFirst(k, sep, rest);
    ShortAnswerKept(j, j);
  }

  /** An answer whose stripped text is shorter than the rejection text
      cannot contain it, so it is kept. */
  lemma {:induction false} ShortAnswerKept(raw: string, rejection: string)
    requires Trim(raw) == raw && |StripHedge(raw)| < |rejection|
    ensures PostProcess(raw, rejection) == StripHedge(raw)
  {
    var r := StripHedge(raw);
    assert IndexOf(r, rejection) == -1;
  }

  // ---- The handler ----

  /** What `chat` answers. */
  datatype ChatReply =
    | Replied(response: string)
    | EmbeddingFailed
    | AllModelsBusy
    | LlmFailed

  /** The HTTP status of each reply. */
  function ReplyStatus(r: ChatReply): (status: int)
    ensures status == 200 <==> r.Replied?
    ensures status == 503 <==> r == AllModelsBusy
    ensures status == 500 <==> r == EmbeddingFailed || r == LlmFailed
  {
    match r
    case Replied(_) => 200
    case AllModelsBusy => 503
    case _ => 500
  }

  /** The ChatLog row a request writes, before its timestamp is set. */
  datatype LogRecord = LogRecord(userId: int, message: string, response: string, modelUsed: Models, sessionId: string)

  datatype ChatOutcome = ChatOutcome(reply: ChatReply, log: Option<LogRecord>)

  /** How an error from `askLLM` is answered. */
  function LlmErrorReply(e: LlmError): (r: ChatReply)
    ensures r == AllModelsBusy <==> e.AllRateLimited?
    ensures r == LlmFailed <==> e.Fatal?
  {
    if e.AllRateLimited? then AllModelsBusy else LlmFailed
  }

  /** The whole `chat` handler for one request. */
  function Chat(message: string, sessionId: string, userId: int, config: BotConfig, env: Env,
                embedOracle: EmbedOracle, hits: seq<Hit>, llmOracle: LlmOracle): ChatOutcome
  {
    var model := ConfiguredModel(config);
    match FallbackOutcome(message, EmbeddingPreference(config), env, embedOracle)
    case Failure(_) => ChatOutcome(EmbeddingFailed, None)
    case Success(NotAnArray) => ChatOutcome(EmbeddingFailed, None)
    case Success(Vector(_)) =>
      if OutOfScope(hits) then
        var response := Rejection(config);
        ChatOutcome(Replied(response), Some(LogRecord(userId, message, response, model, sessionId)))
      else
        var prompt := Prompt(Context(hits), RejectionSetting(config), message);
        match Ask(prompt, Many(PreferredModels(model)), llmOracle)
        case Failure(e) => ChatOutcome(LlmErrorReply(e), None)
        case Success(Completion(NonText, _)) => ChatOutcome(LlmFailed, None)
        case Success(Completion(Text(t), used)) =>
          var response := PostProcess(t, Rejection(config));
          ChatOutcome(Replied(response), Some(LogRecord(userId, message, response, One(used), sessionId)))
  }

  /** A failed embedding is answered 500 before the vector query and the
      models are consulted, and nothing is logged. */
  lemma {:induction false} EmbeddingFailureFirst(message: string, sessionId: string, userId: int, config: BotConfig, env: Env,
                                                  embedOracle: EmbedOracle, hits: seq<Hit>, hits2: seq<Hit>, o1: LlmOracle, o2: LlmOracle)
    requires !FallbackOutcome(message, EmbeddingPreference(config), env, embedOracle).Success?
      || FallbackOutcome(message, EmbeddingPreference(config), env, embedOracle).value.NotAnArray?
    ensures Chat(message, sessionId, userId, config, env, embedOracle, hits, o1) == ChatOutcome(EmbeddingFailed, None)
    ensures Chat(message, sessionId, userId, config, env, embedOracle, hits2, o2) == ChatOutcome(EmbeddingFailed, None)
    ensures ReplyStatus(EmbeddingFailed) == 500
  {
  }

  /** Out of scope, the answer is the trimmed rejection text, the models
      are not consulted, and one ChatLog is written, crediting the
      configured model. */
  lemma {:induction false} OutOfScopeRejects(message: string, sessionId: string, userId: int, config: BotConfig, env: Env,
                                              embedOracle: EmbedOracle, hits: seq<Hit>, o1: LlmOracle, o2: LlmOracle)
    requires FallbackOutcome(message, EmbeddingPreference(config), env, embedOracle).Success?
    requires FallbackOutcome(message, EmbeddingPreference(config), env, embedOracle).value.Vector?
    requires OutOfScope(hits)
    ensures Chat(message, sessionId, userId, config, env, embedOracle, hits, o1)
      == ChatOutcome(Replied(Trim(RejectionSetting(config))),
                     Some(LogRecord(userId, message, Trim(RejectionSetting(config)), ConfiguredModel(config), sessionId)))
    ensures Chat(message, sessionId, userId, config, env, embedOracle, hits, o1)
      == Chat(message, sessionId, userId, config, env, embedOracle, hits, o2)
  {
  }

  /** In scope, the models are asked in the preferred order with a prompt
      built from the context; a rate-limit exhaustion is answered 503,
      any other model failure, and an answer that is not text, 500, with
      nothing logged; a text answer is post-processed and logged with the
      model that gave it. */
  lemma {:induction false} InScopeAnswer(message: string, sessionId: string, userId: int, config: BotConfig, env: Env,
                                          embedOracle: EmbedOracle, hits: seq<Hit>, llmOracle: LlmOracle)
    requires FallbackOutcome(message, EmbeddingPreference(config), env, embedOracle).Success?
    requires FallbackOutcome(message, EmbeddingPreference(config), env, embedOracle).value.Vector?
    requires !OutOfScope(hits)
    ensures
      var ask := Ask(Prompt(Context(hits), RejectionSetting(config), message), Many(PreferredModels(ConfiguredModel(config))), llmOracle);
      var out := Chat(message, sessionId, userId, config, env, embedOracle, hits, llmOracle);
      && (ask.Failure? && ask.error.AllRateLimited? ==> out == ChatOutcome(AllModelsBusy, None) && ReplyStatus(out.reply) == 503)
      && (ask.Failure? && ask.error.Fatal? ==> out == ChatOutcome(LlmFailed, None) && ReplyStatus(out.reply) == 500)
      && (ask.Success? && ask.value.content.NonText? ==> out == ChatOutcome(LlmFailed, None))
      && (ask.Success? && ask.value.content.Text? ==>
            out.reply == Replied(PostProcess(ask.value.content.s, Rejection(config)))
            && out.log == Some(LogRecord(userId, message, out.reply.response, One(ask.value.modelUsed), sessionId)))
  {
  }

  // ---- The ChatLog and ChatSession tables ----

  datatype ChatLog = ChatLog(userId: int, message: string, response: string, modelUsed: Models, sessionId: string, createdAt: int)

  datatype ChatSession = ChatSession(id: string, userId: int, name: string)

  /** Rows in ascending `createdAt` order. */
  predicate SortedByTime(logs: seq<ChatLog>) {
    forall i, j :: 0 <= i < j < |logs| ==> logs[i].createdAt <= logs[j].createdAt
  }

  /** Filtering keeps rows in time order. */
  lemma {:induction false} FilterSorted(logs: seq<ChatLog>, keep: ChatLog -> bool)
    requires SortedByTime(logs)
    ensures SortedByTime(Filter(logs, keep))
    decreases |logs|
  {
    if logs != [] {
      var rest := Filter(logs[1..], keep);
      assert SortedByTime(logs[1..]) by {
        forall i, j | 0 <= i < j < |logs[1..]| ensures logs[1..][i].createdAt <= logs[1..][j].createdAt {
          assert logs[1..][i] == logs[i + 1] && logs[1..][j] == logs[j + 1];
        }
      }
      FilterSorted(logs[1..], keep);
      if keep(logs[0]) {
        FilterMembers(logs[1..], keep);
        var f := [logs[0]] + rest;
        forall i, j | 0 <= i < j < |f| ensures f[i].createdAt <= f[j].createdAt {
          if i == 0 {
            assert f[j] == rest[j - 1];
            assert rest[j - 1] in logs[1..];
            var k :| 0 <= k < |logs[1..]| && logs[1..][k] == rest[j - 1];
            assert logs[1..][k] == logs[k + 1];
          } else {
            assert f[i] == rest[i - 1] && f[j] == rest[j - 1];
          }
        }
      }
    }
  }

  /** The `where` of `history`: the caller's rows, and only the given
      session's when a (non-empty) session id is passed. */
  function HistoryFilter(userId: int, sessionId: Option<string>): ChatLog -> bool {
    (l: ChatLog) => l.userId == userId && (sessionId.None? || sessionId.value == "" || l.sessionId == sessionId.value)
  }

  /** What `history` returns. */
  function History(logs: seq<ChatLog>, userId: int, sessionId: Option<string>): seq<ChatLog> {
    Filter(logs, HistoryFilter(userId, sessionId))
  }

  /** History holds exactly the caller's rows (of the given session, if
      any), each as often as stored, in ascending time. */
  lemma {:induction false} HistorySpec(logs: seq<ChatLog>, userId: int, sessionId: Option<string>)
    requires SortedByTime(logs)
    ensures forall l :: l in History(logs, userId, sessionId) <==>
      l in logs && l.userId == userId && (sessionId.None? || sessionId.value == "" || l.sessionId == sessionId.value)
    ensures forall l ::
      multiset(History(logs, userId, sessionId))[l] == if HistoryFilter(userId, sessionId)(l) then multiset(logs)[l] else 0
    ensures SortedByTime(History(logs, userId, sessionId))
  {
    FilterMembers(logs, HistoryFilter(userId, sessionId));
    FilterCount(logs, HistoryFilter(userId, sessionId));
    FilterSorted(logs, HistoryFilter(userId, sessionId));
  }

  /** The `where` of the log deletion in `deleteSession`. */
  function NotInSession(id: string, userId: int): ChatLog -> bool {
    (l: ChatLog) => !(l.sessionId == id && l.userId == userId)
  }

  /** `ChatSession.findOne({ where: { id, userId } })`: the first match. */
  function FindSession(sessions: seq<ChatSession>, id: string, userId: int): (r: Option<nat>)
    ensures r.Some? ==> r.value < |sessions| && sessions[r.value].id == id && sessions[r.value].userId == userId
    ensures r.None? ==> forall i :: 0 <= i < |sessions| ==> !(sessions[i].id == id && sessions[i].userId == userId)
  {
    if sessions == [] then None
    else if sessions[0].id == id && sessions[0].userId == userId then Some(0)
    else
      var r := FindSession(sessions[1..], id, userId);
      assert forall i :: 1 <= i < |sessions| ==> sessions[i] == sessions[1..][i - 1];
      if r.Some? then Some(r.value + 1) else None
  }

  /** The logs `deleteSession` leaves: exactly those not of this session
      and user; rows of other users, and of other sessions, all stay. */
  lemma {:induction false} DeleteSessionLogs(logs: seq<ChatLog>, id: string, userId: int)
    ensures forall l :: l in Filter(logs, NotInSession(id, userId)) <==> l in logs && !(l.sessionId == id && l.userId == userId)
    ensures forall l :: l in logs && l.userId != userId ==> l in Filter(logs, NotInSession(id, userId))
    ensures forall l ::
      multiset(Filter(logs, NotInSession(id, userId)))[l] == if l.sessionId == id && l.userId == userId then 0 else multiset(logs)[l]
  {
    FilterMembers(logs, NotInSession(id, userId));
    FilterCount(logs, NotInSession(id, userId));
  }

  /** Filtered rows stay in time order and stamped before now. */
  lemma {:induction false} FilterKeepsTime(logs: seq<ChatLog>, keep: ChatLog -> bool, clock: int, logs': seq<ChatLog>)
    requires SortedByTime(logs) && forall i :: 0 <= i < |logs| ==> logs[i].createdAt <= clock
    requires logs' == Filter(logs, keep)
    ensures SortedByTime(logs') && forall i :: 0 <= i < |logs'| ==> logs'[i].createdAt <= clock
  {
    FilterSorted(logs, keep);
    FilterMembers(logs, keep);
    forall i | 0 <= i < |logs'|
      ensures logs'[i].createdAt <= clock
    {
      assert logs'[i] in logs;
    }
  }

  /** Removing one session keeps the remaining ids distinct. */
  lemma {:induction false} RemoveKeepsKeys(sessions: seq<ChatSession>, k: nat, sessions': seq<ChatSession>)
    requires k < |sessions|
    requires forall i, j :: 0 <= i < j < |sessions| ==> sessions[i].id != sessions[j].id
    requires sessions' == sessions[..k] + sessions[k + 1..]
    ensures forall i, j :: 0 <= i < j < |sessions'| ==> sessions'[i].id != sessions'[j].id
  {
    forall i, j | 0 <= i < j < |sessions'|
      ensures sessions'[i].id != sessions'[j].id
    {
      var i' := if i < k then i else i + 1;
      var j' := if j < k then j else j + 1;
      assert sessions'[i] == sessions[i'] && sessions'[j] == sessions[j'];
    }
  }

  /** The ChatLog and ChatSession tables, and the clock that stamps
      `createdAt`. */
  class ChatStore {
    var logs: seq<ChatLog>
    var sessions: seq<ChatSession>
    var clock: int

    /** Rows are in time order and stamped before now; session ids, the
        primary key, are distinct. */
    ghost predicate Valid()
      reads this
    {
      && SortedByTime(logs)
      && (forall i :: 0 <= i < |logs| ==> logs[i].createdAt <= clock)
      && (forall i, j :: 0 <= i < j < |sessions| ==> sessions[i].id != sessions[j].id)
    }

    constructor ()
      ensures Valid()
      ensures logs == [] && sessions == []
    {
      logs := [];
      sessions := [];
      clock := 0;
    }

    /** `ChatLog.create`, stamped with the present time. */
    method AddLog(rec: LogRecord)
      requires Valid()
      modifies this
      ensures Valid()
      ensures logs == old(logs) + [ChatLog(rec.userId, rec.message, rec.response, rec.modelUsed, rec.sessionId, old(clock))]
      ensures sessions == old(sessions) && clock == old(clock) + 1
    {
      logs := logs + [ChatLog(rec.userId, rec.message, rec.response, rec.modelUsed, rec.sessionId, clock)];
      clock := clock + 1;
    }

    /** `chat`: the reply, and at most the one log row the handler writes. */
    method HandleChat(message: string, sessionId: string, userId: int, config: BotConfig, env: Env,
                      embedOracle: EmbedOracle, hits: seq<Hit>, llmOracle: LlmOracle)
      returns (reply: ChatReply, status: int)
      requires Valid()
      modifies this
      ensures Valid()
      ensures reply == Chat(message, sessionId, userId, config, env, embedOracle, hits, llmOracle).reply
      ensures status == ReplyStatus(reply)
      ensures sessions == old(sessions)
      ensures var rec := Chat(message, sessionId, userId, config, env, embedOracle, hits, llmOracle).log;
        && (rec.None? ==> logs == old(logs))
        && (rec.Some? ==> logs == old(logs) + [ChatLog(rec.value.userId, rec.value.message, rec.value.response,
                                                        rec.value.modelUsed, rec.value.sessionId, old(clock))])
        && clock == old(clock) + (if rec.Some? then 1 else 0)
    {
      var model := ConfiguredModel(config);
      var embedding, _ := GetEmbeddingWithFallback(message, EmbeddingPreference(config), env, embedOracle);
      if embedding.Failure? || embedding.value.NotAnArray? {
        reply := EmbeddingFailed;
        status := ReplyStatus(reply);
        return;
      }
      if OutOfScope(hits) {
        var response := Rejection(config);
        AddLog(LogRecord(userId, message, response, model, sessionId));
        reply := Replied(response);
        status := ReplyStatus(reply);
        return;
      }
      var prompt := Prompt(Context(hits), RejectionSetting(config), message);
      var answer, _ := AskLlm(prompt, Many(PreferredModels(model)), llmOracle);
      if answer.Failure? {
        reply := LlmErrorReply(answer.error);
        status := ReplyStatus(reply);
        return;
      }
      if answer.value.content.NonText? {
        reply := LlmFailed;
        status := ReplyStatus(reply);
        return;
      }
      var response := PostProcess(answer.value.content.s, Rejection(config));
      AddLog(LogRecord(userId, message, response, One(answer.value.modelUsed), sessionId));
      reply := Replied(response);
      status := ReplyStatus(reply);
    }

    /** `history`: the caller's rows in ascending time. */
    method GetHistory(userId: int, sessionId: Option<string>) returns (result: seq<ChatLog>)
      requires Valid()
      ensures result == History(logs, userId, sessionId)
      ensures SortedByTime(result)
      ensures forall l :: l in result ==> l in logs && l.userId == userId
    {
      result := History(logs, userId, sessionId);
      HistorySpec(logs, userId, sessionId);
    }

    /** `deleteSession`: 404 when the caller has no session with this id;
        otherwise that session's logs of this user, and then the session,
        are removed. */
    method DeleteSession(id: string, userId: int) returns (status: int)
      requires Valid()
      modifies this
      ensures Valid()
      ensures clock == old(clock)
      ensures status == 404 <==> FindSession(old(sessions), id, userId).None?
      ensures status == 404 ==> logs == old(logs) && sessions == old(sessions)
      ensures status != 404 ==> status == 200
      ensures status != 404 ==>
        var k := FindSession(old(sessions), id, userId).value;
        logs == Filter(old(logs), NotInSession(id, userId))
        && sessions == old(sessions)[..k] + old(sessions)[k + 1..]
    {
      var found := FindSession(sessions, id, userId);
      if found.None? {
        return 404;
      }
      var k := found.value;
      var oldLogs := logs;
      var oldSessions := sessions;
      logs := Filter(logs, NotInSession(id, userId));
      FilterKeepsTime(oldLogs, NotInSession(id, userId), clock, logs);
      sessions := sessions[..k] + sessions[k + 1..];
      RemoveKeepsKeys(oldSessions, k, sessions);
      status := 200;
    }
  }
}
