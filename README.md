# EduAiWidget backend: retrieval and fallback pipeline in Dafny

This project models the server side of an embeddable question answering
widget. Administrators feed it documents and web pages. Each text is cut into
word chunks, every chunk is embedded and stored as a vector row, and each
ingestion runs inside one database transaction. A user question is embedded
too. It is answered from the three closest chunks, or refused with a canned
rejection message when nothing stored is close enough. The answer comes from
the first language model in a preference list that is not rate limited.

The model covers the four core files:

- `knowledgeController.js`
  - `chunkText`: the `Chunker` module.
  - Ingestion and deletion: the `Knowledge` module. A `KnowledgeBase` class
    holds the Document, UrlSource and VectorEntry tables and the two id
    sequences.
- `chatController.js`: the `ChatController` module.
  - Pure rules: the relevance gate, context assembly, the model order, the
    hedge-prefix strip, the collapse onto the rejection text, and the
    mapping of errors to status codes.
  - A `ChatStore` class holds the ChatLog and ChatSession tables and serves
    `chat`, `history` and `deleteSession`.
- `llmClient.js`: the completion fallback loop `askLLM`, in the `LlmClient`
  module.
- `vectorizer.js`: the embedding dispatcher and its fallback loop, in the
  `Vectorizer` module.

Three support modules sit underneath:

- `JsText`: the JavaScript string built-ins the code relies on.
  - `String.prototype.trim` and the `\s` class, which share one white-space
    set.
  - `split(/\s+/)`, including its empty leading and trailing tokens.
  - `join` and `indexOf`.
- `Seqs`: `Array.prototype.filter` and its laws.
- `Wrappers`: `Option` and `Result`.

Several things outside the program are parameters:

- Every provider HTTP call is an oracle function, for embeddings and for
  completions.
- The environment's API keys are a record.
- The database's acceptance of a vector row is a predicate.
- The nearest-neighbour query result is an input list of rows with real
  distances.
- Time is a counter field of the store.

Loops in the source are loops here, each proved against a recursive
specification function:

- the chunking loop;
- both fallback loops;
- the per-chunk ingestion loop.

Each of those functions is then characterised by lemmas.

Where the code and the prose description of the system differ, the model
follows the code:

- When every embedding candidate fails, the code rethrows the last
  provider's error. "No embedding providers available" is raised only when
  there was no candidate at all.
- The code never checks the embedding width of 768. Whether a row is stored
  is up to the database, which is the `accepts` parameter.

Some behaviour the code has, which the lemmas make explicit:

- A chunk can only be dropped as blank at either end of the token list
  (`BlankOnlyAtEnds`). An empty or all-white-space text gives no chunks, and
  its upload is refused before a Document is created.
- `addUrlSource` takes its UrlSource id before anything else. Postgres
  sequences are not rolled back, so a failed URL ingestion still uses up an
  id. A failed upload uses one up only once it has reached `Document.create`.
- A rejection setting made only of white space trims to "", and "" occurs
  in every string. Every in-scope answer then collapses to ""
  (`BlankRejectionEmptiesAnswers`).
- A rejection setting that starts with a hedge phrase is not recognised
  when the model replies with exactly that text. The hedge is stripped
  first, and what remains is too short to contain the setting
  (`HedgedRejectionNotCollapsed`). A reply that holds the setting after
  some other opening is still recognised.
- Gemini replies whose first part has no text make `askLLM` return that
  part, which is not a string. The chat handler then fails with status 500.
- The embedding filter keeps only `openai` and `gemini`. The chat default
  `['openrouter','deepseek','gemini','openai']` therefore tries gemini, then
  openai.

## Model

| member | source | states |
|---|---|---|
| `JsText.TrimStart` | backend/controllers/knowledgeController.js:17 | the result is a suffix, everything removed is white space, and the result does not start with white space |
| `JsText.TrimEnd` | backend/controllers/knowledgeController.js:17 | the result is a prefix, everything removed is white space, and the result does not end with white space |
| `JsText.TrimEnds` | backend/controllers/chatController.js:73 | a trimmed string is empty or neither starts nor ends with white space |
| `JsText.TrimEmptyIffBlank` | backend/controllers/knowledgeController.js:17 | `trim()` gives "" exactly when the string is all white space |
| `JsText.TrimIdempotent` | backend/controllers/chatController.js:75 | trimming twice is trimming once |
| `JsText.Split` | backend/controllers/knowledgeController.js:12 | `split(/\s+/)` yields at least one token, and no token holds white space |
| `JsText.SplitInteriorNonEmpty` | backend/controllers/knowledgeController.js:12 | only the first and last tokens can be empty, and the first is empty only when the text is empty or starts with white space |
| `JsText.SplitJoin` | backend/controllers/knowledgeController.js:12-15 | splitting the space-join of white-space-free tokens with non-empty interior tokens gives back exactly those tokens |
| `JsText.JoinBlank` | backend/controllers/knowledgeController.js:15-17 | a space-joined chunk is blank exactly when all of its tokens are empty |
| `JsText.IndexOfFrom` | backend/controllers/chatController.js:76 | the result is -1 when there is no occurrence at or after `from`, and otherwise the first such occurrence |
| `JsText.IndexOfSpec` | backend/controllers/chatController.js:76-77 | `indexOf` is -1 exactly when the needle does not occur, and is otherwise the first occurrence |
| `JsText.JoinLayout` | backend/controllers/chatController.js:55 | piece i of a join sits at its offset and is followed by the whole separator unless it is the last piece, which ends the string |
| `Seqs.Filter` | backend/utils/vectorizer.js:71-79 | the filtered list is no longer than the input and every kept element passes the test |
| `Seqs.FilterOrder` | backend/utils/vectorizer.js:71 | filtering keeps the input order (the result is a subsequence) |
| `Seqs.FilterCount` | backend/utils/vectorizer.js:71 | each passing element is kept as often as it occurs, and no failing element is kept |
| `Seqs.FilterMembers` | backend/controllers/chatController.js:101-102 | an element is in the result exactly when it is in the input and passes the test |
| `Seqs.FilterFilter` | backend/controllers/knowledgeController.js:137-138 | two consecutive filters equal one filter with the conjunction of both tests |
| `Chunker.ChunkText` | backend/controllers/knowledgeController.js:10-18 | the loop computes the specification `Chunks` (split, group by `chunkSize`, join with spaces, drop blank chunks), and every returned chunk is non-blank after trimming |
| `Chunker.KeepNonBlankNonBlank` | backend/controllers/knowledgeController.js:17 | every chunk the filter keeps has a non-empty trim |
| `Chunker.SplitIsWellSplit` | backend/controllers/knowledgeController.js:12 | split output has white-space-free tokens and non-empty interior tokens |
| `Chunker.GroupsCount` | backend/controllers/knowledgeController.js:14-16 | before the filter there are exactly ceil(#tokens / chunkSize) chunks |
| `Chunker.GroupsShape` | backend/controllers/knowledgeController.js:14-16 | the groups concatenate back to the token list in order; each holds 1 to chunkSize tokens, and all but the last hold exactly chunkSize |
| `Chunker.KeepNonBlankJoin` | backend/controllers/knowledgeController.js:15-17 | dropping blank joined chunks is the same as joining only the groups that hold a non-empty token |
| `Chunker.ChunkTokens` | backend/controllers/knowledgeController.js:12-17 | each returned chunk is the space-join of one kept group, re-splits to exactly that group, and holds between 1 and chunkSize tokens |
| `Chunker.ChunkWords` | backend/controllers/knowledgeController.js:14-17 | the kept chunks' tokens, once empty tokens are dropped, are the text's words in order; only blank chunks are lost |
| `Chunker.ChunkCount` | backend/controllers/knowledgeController.js:14-17 | the unfiltered count is ceil(#tokens / chunkSize) and the returned count is at most that |
| `Chunker.ChunksAtMostGroups` | backend/controllers/knowledgeController.js:17 | the filter never adds chunks |
| `Chunker.BlankOnlyAtEnds` | backend/controllers/knowledgeController.js:12-17 | every group but the first and the last holds a non-empty token, so only an end chunk can be dropped as blank |
| `Chunker.ChunksEmptyIffBlank` | backend/controllers/knowledgeController.js:17 | no chunks are returned exactly when the text is empty or all white space |
| `Vectorizer.GetEmbedding` | backend/utils/vectorizer.js:3-64 | the result is "Model not supported" exactly for names other than the four providers; otherwise it is the provider's reply, with a failure tagged by the provider |
| `Vectorizer.UnsupportedModel` | backend/utils/vectorizer.js:63 | any other name is rejected with "Model not supported" |
| `Vectorizer.AvailableProvidersSpec` | backend/utils/vectorizer.js:70-79 | the candidates are the preferences that are `openai` or `gemini` with a set key, in preference order and with multiplicity; every other name is dropped |
| `Vectorizer.DefaultCandidates` | backend/utils/vectorizer.js:67 | with the default preference, openai comes before gemini, each only when its key is set |
| `Vectorizer.ChatDefaultCandidates` | backend/controllers/chatController.js:20 | with the chat default preference, the effective order is gemini then openai, each only when its key is set |
| `Vectorizer.Attempts` | backend/utils/vectorizer.js:84-89 | the number of providers the loop calls never exceeds the number of candidates |
| `Vectorizer.GetEmbeddingWithFallback` | backend/utils/vectorizer.js:67-96 | the loop returns what the specification `FallbackOutcome` gives, and the providers it calls are the first `Attempts` candidates in order |
| `Vectorizer.FallbackFirstSuccess` | backend/utils/vectorizer.js:84-89 | the fallback succeeds exactly when some candidate succeeds; it then returns the first successful candidate's embedding, and every earlier candidate failed, whatever the failure |
| `Vectorizer.FallbackExhausted` | backend/utils/vectorizer.js:90-95 | when every candidate fails, all are called and the last one's error is thrown; with no candidate the error is "No embedding providers available" |
| `Vectorizer.FallbackPrefix` | backend/utils/vectorizer.js:84-89 | two provider oracles that agree on the attempted candidates give the same outcome, so no candidate after the first success is called |
| `LlmClient.ModelList` | backend/utils/llmClient.js:6 | a single name becomes a one-element list, and a list is kept as is |
| `LlmClient.Extract` | backend/utils/llmClient.js:61-67 | Gemini gives the first part's text when it is non-empty, the part itself when it has none, and an error without HTTP status otherwise; the other providers give `choices[0].message.content` or fail on a broken path |
| `LlmClient.Attempt` | backend/utils/llmClient.js:10-141 | a completed attempt is credited to the model name that was tried, and that name is a known provider |
| `LlmClient.RetryWorthy` | backend/utils/llmClient.js:100-107 | an attempt moves on exactly for HTTP 429 or 402 from a known provider, or a refused connection to lmstudio or ollama; an unknown name aborts with "Model not supported" |
| `LlmClient.FirstDecisive` | backend/utils/llmClient.js:8-142 | the index found is the first attempt that does not move on: every earlier attempt moves on and that one does not |
| `LlmClient.AskLlm` | backend/utils/llmClient.js:4-148 | the loop returns what the specification `Ask` gives, and the models it calls are the first `AskAttempts` of the list in order |
| `LlmClient.AskOutcome` | backend/utils/llmClient.js:8-147 | the first attempt that does not move on decides the outcome: its answer, or its failure as fatal; if every attempt moves on, the error is ALL_LLM_RATE_LIMITED, carrying the last failure, or null for an empty list |
| `LlmClient.AskSuccessModel` | backend/utils/llmClient.js:25 | a success reports as `modelUsed` the first model whose attempt did not move on |
| `LlmClient.AskPrefix` | backend/utils/llmClient.js:8-25 | only the attempted models matter: oracles that agree on them give the same outcome and the same attempt count |
| `LlmClient.RateLimitFallsThrough` | backend/utils/llmClient.js:133-138 | a 429 from openai hands over to gemini, whose text is returned with `modelUsed` gemini |
| `LlmClient.RemoteRefusalIsFatal` | backend/utils/llmClient.js:139-141 | a refused connection to openai is thrown at once, whatever models follow |
| `LlmClient.LocalRefusalFallsThrough` | backend/utils/llmClient.js:123-130 | after a 402 from openai, a refused connection to ollama is skipped too, and the rate-limit error keeps the refusal as its last error |
| `LlmClient.EmptyModelList` | backend/utils/llmClient.js:143-147 | an empty model list gives the rate-limit error with a null last error |
| `Knowledge.ToNumbers` | backend/controllers/knowledgeController.js:61 | `map(Number)` keeps the length and converts each element on its own |
| `Knowledge.ValidateEmbeddingSpec` | backend/controllers/knowledgeController.js:61-63 | an embedding passes exactly when it is a non-empty array with no element converting to NaN, and then the stored vector is the converted array; an empty array fails as empty, a NaN as non-numeric |
| `Knowledge.IngestFromSpec` | backend/controllers/knowledgeController.js:59-73 | the chunk loop succeeds exactly when every chunk embeds, validates and inserts; it then holds the earlier rows followed by one row per chunk, in order |
| `Knowledge.IngestFromOk` | backend/controllers/knowledgeController.js:59-73 | the chunk loop completes exactly when every chunk embeds, validates and is accepted by the insert |
| `Knowledge.IngestFromRows` | backend/controllers/knowledgeController.js:59-73 | a completed loop keeps the earlier rows and then holds, at each position, the successful row of the corresponding chunk |
| `Knowledge.IngestRows` | backend/controllers/knowledgeController.js:59-75 | a successful ingestion inserts exactly one row per chunk, in chunk order, each holding its chunk and linked to the new source only |
| `Knowledge.IngestAbortsOnBadChunk` | backend/controllers/knowledgeController.js:59-77 | one chunk that fails to embed, validate or insert aborts the whole ingestion |
| `Knowledge.IngestChunks` | backend/controllers/knowledgeController.js:59-73 | the loop over chunks computes the specification `Ingest` |
| `Knowledge.BlankDocumentRejected` | backend/controllers/knowledgeController.js:48-51 | a document whose text is empty or all white space fails with "No text chunks" before any Document is created |
| `Knowledge.UploadSuccess` | backend/controllers/knowledgeController.js:51-75 | a successful upload creates the Document with the next id and the file's attributes, plus one row per chunk in order, all linked to that Document |
| `Knowledge.BlankPageRejected` | backend/controllers/knowledgeController.js:100-103 | a page whose text is empty or all white space fails with "No text chunks" |
| `Knowledge.AddUrlSuccess` | backend/controllers/knowledgeController.js:93-120 | a successful URL ingestion creates the UrlSource with the next id, plus one row per chunk in order, all linked to it |
| `Knowledge.UploadStatus` | backend/controllers/knowledgeController.js:43-83 | the upload answers 201 on success, 400 without a file, and 500 on every other failure |
| `Knowledge.AddUrlStatus` | backend/controllers/knowledgeController.js:120-123 | URL ingestion answers 201 on success and 500 on any failure |
| `Knowledge.EntriesAfterDeleteSpec` | backend/controllers/knowledgeController.js:137-138 | deletion removes exactly the rows whose `documentId` or `urlSourceId` is the id, and keeps all other rows in order with multiplicity |
| `Knowledge.DeleteKeepsLinks` | backend/controllers/knowledgeController.js:133-139 | after deleting a source, every remaining row still has exactly one link and that link still resolves to a stored Document or UrlSource |
| `Knowledge.KnowledgeBase.constructor` | backend/models/VectorEntry.js:4-30 | the store starts with empty tables and satisfies its invariant |
| `Knowledge.KnowledgeBase.TakeDocumentId` | backend/controllers/knowledgeController.js:51-57 | takes the next Document id and advances the sequence, changing no table |
| `Knowledge.KnowledgeBase.TakeUrlSourceId` | backend/controllers/knowledgeController.js:93-98 | takes the next UrlSource id and advances the sequence, changing no table |
| `Knowledge.KnowledgeBase.UploadDocument` | backend/controllers/knowledgeController.js:38-85 | the result and status follow `UploadOutcome`. Success appends the Document and its rows. Any failure leaves all three tables as they were. The Document id is used up exactly when `Document.create` was reached. The invariant is kept: every id was issued by the sequence, every row has one link, and that link resolves |
| `Knowledge.KnowledgeBase.CommitDocument` | backend/controllers/knowledgeController.js:74 | commit appends the Document and its rows and keeps the invariant |
| `Knowledge.KnowledgeBase.AddUrlSource` | backend/controllers/knowledgeController.js:87-125 | the result and status follow `AddUrlOutcome`, with the unique-url check made against the stored rows. The UrlSource id is always used up. Success appends the source and its rows. Any failure leaves all tables as they were |
| `Knowledge.KnowledgeBase.CommitUrlSource` | backend/controllers/knowledgeController.js:119 | commit appends the UrlSource and its rows and keeps the invariant |
| `Knowledge.KnowledgeBase.DeleteSource` | backend/controllers/knowledgeController.js:133-139 | removes the Document with the id, the UrlSource with the id, and the rows linked to the id through either column; nothing else changes and the invariant is kept |
| `ChatController.RejectionSetting` | backend/controllers/chatController.js:49 | the setting is never empty; a non-empty configured message is used as is, and a missing or empty one gives the default sentence |
| `ChatController.ConfiguredModel` | backend/controllers/chatController.js:19 | a missing model or an empty name becomes "openai", a non-empty name is kept, and a configured list, even an empty one, is kept |
| `ChatController.GateThreshold` | backend/controllers/chatController.js:47 | an empty result, or a closest distance strictly above 0.7, is out of scope; exactly 0.7 proceeds; only the first row is looked at |
| `ChatController.Contents` | backend/controllers/chatController.js:55 | the contents list the rows' contents, one per row, in result order |
| `ChatController.ContextLayout` | backend/controllers/chatController.js:55 | every row's content appears in the context at its offset, in result order, with a newline between neighbours and nothing after the last |
| `ChatController.OtherModels` | backend/controllers/chatController.js:67-68 | the other known models are openai, gemini, deepseek and ollama in that order, leaving out the configured name |
| `ChatController.PreferredModelsSpec` | backend/controllers/chatController.js:63-69 | for a single name, the name comes first, the rest keep the known models' order, exactly the name and the known models appear, and nothing repeats |
| `ChatController.PreferredModelsList` | backend/controllers/chatController.js:64-65 | a configured list is used verbatim |
| `ChatController.FirstHedge` | backend/controllers/chatController.js:74 | the phrase found is the first in pattern order that matches case-blind and is followed by a separator; when none is found, no phrase does |
| `ChatController.SeparatorRun` | backend/controllers/chatController.js:74 | the run taken is the longest separator prefix: all separators, and the next character is not one |
| `ChatController.StripHedgeSpec` | backend/controllers/chatController.js:74 | the text is kept exactly when no phrase plus separator starts it; otherwise one case-blind phrase and its whole separator run are cut, and the rest is a suffix not starting with a separator |
| `ChatController.SeparatorRunOf` | backend/controllers/chatController.js:74 | a separator run followed by a non-separator is taken whole |
| `ChatController.PhraseOfHedge` | backend/controllers/chatController.js:74 | a text that begins with one phrase, case-blind, begins with no other: the phrases of the pattern are pairwise exclusive |
| `ChatController.FirstHedgeOf` | backend/controllers/chatController.js:74 | a text that begins with phrase k and a separator is matched by phrase k, whatever its position in the pattern |
| `ChatController.StripFirst` | backend/controllers/chatController.js:74 | any phrase, a separator run and a rest not starting with a separator strip to the rest |
| `ChatController.StripHedgeOnce` | backend/controllers/chatController.js:74 | at most one phrase is removed: any second hedge right after any first one stays |
| `ChatController.StripHedgeSuffix` | backend/controllers/chatController.js:74 | stripping gives a suffix of the text |
| `ChatController.CollapseSpec` | backend/controllers/chatController.js:75-81 | an answer containing the rejection text anywhere becomes exactly that text; any other answer is kept |
| `ChatController.CollapseIdempotent` | backend/controllers/chatController.js:75-81 | the rejection text collapses to itself, and collapsing twice is collapsing once |
| `ChatController.PostProcess` | backend/controllers/chatController.js:73-81 | the final answer is the rejection text or a suffix of the trimmed model text |
| `ChatController.BlankRejectionEmptiesAnswers` | backend/controllers/chatController.js:75-81 | a non-empty, all-white-space rejection setting makes every in-scope answer "" |
| `ChatController.HedgedRejectionNotCollapsed` | backend/controllers/chatController.js:73-81 | a rejection text that starts with any of the phrases, replied verbatim by the model, is stripped and not recognised |
| `ChatController.ShortAnswerKept` | backend/controllers/chatController.js:75-81 | an already-trimmed answer whose stripped text is shorter than the rejection text is returned stripped and not collapsed |
| `ChatController.ReplyStatus` | backend/controllers/chatController.js:34-89 | an answer is 200, all models busy is 503, and an embedding or model failure is 500 |
| `ChatController.LlmErrorReply` | backend/controllers/chatController.js:86-89 | the ALL_LLM_RATE_LIMITED error maps to "busy" and every other model error to failure |
| `ChatController.EmbeddingFailureFirst` | backend/controllers/chatController.js:28-35 | a failed or non-array embedding answers 500 and logs nothing, whatever the vector query and the models would give |
| `ChatController.OutOfScopeRejects` | backend/controllers/chatController.js:47-53 | out of scope, the answer is the trimmed rejection setting, one log crediting the configured model is written, and the models are not consulted |
| `ChatController.InScopeAnswer` | backend/controllers/chatController.js:55-94 | in scope, the models are asked in preferred order with the context prompt. Rate-limit exhaustion gives 503. Any other model error, or a non-text answer, gives 500 with no log. A text answer is post-processed and logged with the model that gave it |
| `ChatController.FilterSorted` | backend/controllers/chatController.js:102 | filtering rows kept in time order leaves them in time order |
| `ChatController.HistorySpec` | backend/controllers/chatController.js:97-104 | history holds exactly the caller's rows, of the given session when a non-empty one is passed, each as often as stored, in ascending time |
| `ChatController.FindSession` | backend/controllers/chatController.js:130 | the index found is a session with that id and user; when there is none, no session matches |
| `ChatController.DeleteSessionLogs` | backend/controllers/chatController.js:133 | the logs left are exactly those not of this session and user; other users' logs all stay |
| `ChatController.RemoveKeepsKeys` | backend/controllers/chatController.js:133-134 | removing the deleted session keeps the remaining session ids distinct |
| `ChatController.ChatStore.constructor` | backend/models/ChatLog.js:4-31 | the store starts with empty tables and satisfies its invariant |
| `ChatController.ChatStore.AddLog` | backend/controllers/chatController.js:93 | appends the row stamped with the current time and advances the clock, keeping the rows in time order |
| `ChatController.ChatStore.HandleChat` | backend/controllers/chatController.js:15-95 | the reply and status follow the specification `Chat`; exactly the log it names, if any, is appended; sessions are unchanged; the clock advances by one exactly when a log is written |
| `ChatController.ChatStore.GetHistory` | backend/controllers/chatController.js:97-104 | returns `History` of the stored rows, in time order, all belonging to the caller |
| `ChatController.ChatStore.DeleteSession` | backend/controllers/chatController.js:127-136 | 404 with nothing changed exactly when the caller has no session with this id; otherwise 200, that session's logs of this user are removed, and then the session itself |

## Left out

- Text extraction is not modelled: `pdf-parse`, file reads, the `originalname` fallback, and fetching and parsing a page with `cheerio` (backend/controllers/knowledgeController.js:20-36). The extracted text is an input, and `None` stands for an extraction that threw. Removing the uploaded file after a failure is file-system I/O and is left out too.
- Outbound HTTP calls are oracles: URLs, payloads, headers and model identifiers are not modelled. Keys are not checked before completion calls, so a missing key shows up only as the provider's HTTP error.
- The oracles are deterministic functions of the provider and the input. A provider listed twice, or the same chunk text embedded twice in one ingestion, therefore gets the same reply both times. A provider that answers 429 and then succeeds on a later call cannot be represented. No proved property depends on this.
- The nearest-neighbour SQL query (`<#>`, `ORDER BY distance`, `LIMIT 3`) is given as an input list. The model does not derive it from the stored rows or the query embedding, and so does not establish that there are at most three rows in ascending distance.
- `Models` values are not coerced to strings. A configured model list logged with an out-of-scope answer keeps its list form.
- Database failures outside the modelled checks are left out:
  - beginning the transaction;
  - ORM validation in `Document.create` and `UrlSource.create`;
  - ORM validation in `ChatLog.create`, such as a missing `sessionId`;
  - a failing vector query.
- The first two kinds happen inside the handlers' `try` blocks (backend/controllers/knowledgeController.js:42-84 and :90-124). There the transaction is rolled back and the answer is 500.
- The last two happen outside any `try` in `chat`. What the client then gets depends on the Express major version, which the source files do not show. Express 4 leaves the request unanswered. Express 5 passes the rejection to the global handler (backend/server.js:79-82), which answers 500.
- `deleteSession` with an id that is not a UUID is not modelled. `ChatSession.findOne` (backend/controllers/chatController.js:130) then throws outside any `try`, with the same dependence on the Express version. `ChatController.ChatStore.DeleteSession` answers 404 for every id that names no session.
- An embedding that is a string is not told apart from other non-arrays. In the code it passes `.slice` (backend/controllers/chatController.js:31) and throws at `.join` (:39), outside the `try`. `ChatController.Chat` answers every non-array embedding with `EmbeddingFailed` and status 500, which matches the code only for non-arrays that have no `slice` method.
- Only the unique url column and the vector-row insert (the `accepts` predicate) can fail in the model.
- VectorEntry ids, the `metadata` column and the `createdAt`/`updatedAt` columns of the source tables are not modelled.
- ChatLog time is a counter that stamps distinct, increasing times. The database's order for equal `createdAt` values is not modelled.
- An empty `parts` array in a Gemini reply is not modelled separately. In the code it throws a TypeError rather than "Unexpected Gemini response structure"; both are fatal, and the model reports the latter.
- A Gemini `text` field that is truthy but not a string is not modelled.
- Error message strings and all logging are left out.
- Reading and writing the bot configuration file is left out. The configuration is a record.
- `clearHistory`, `createSession`, `listSessions`, `listSources` and the admin and API-key code are outside the modelled core.
- Route ids are typed values: a number for `deleteSource`, a string for `deleteSession`. Non-numeric ids reaching Postgres are not modelled.
- `Chunker.ChunkText` requires a positive chunk size. With size 0 the source loop never ends. Both handlers pass 50.
- `askLLM`'s default argument `'openai'` is not modelled separately, because the chat handler always passes a list.
- `ChatController.Chat` takes the vector query result as a parameter unrelated to the embedding it computed. Its contract therefore says nothing about which rows are retrieved.
- Concurrency between requests is left out.
