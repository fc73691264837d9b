/** The knowledge base behind `uploadDocument`, `addUrlSource` and
    `deleteSource`: the Document, UrlSource and VectorEntry tables, the
    ingestion loop that embeds, validates and inserts one row per chunk
    inside a transaction, and the deletion of a source with its rows. */
module Knowledge {
  import opened Wrappers
  import opened Seqs
  import opened JsText
  import opened Chunker
  import opened Vectorizer

  /** The upload as multer describes it. */
  datatype FileInfo = FileInfo(filename: string, originalname: string, mimetype: string, size: int)

  datatype Document = Document(id: int, filename: string, originalname: string, mimetype: string, size: int, uploaderId: int)

  datatype UrlSource = UrlSource(id: int, url: string, title: Option<string>, description: Option<string>, addedBy: int)

  /** A stored chunk, linked to the document or to the URL it came from. */
  datatype VectorEntry = VectorEntry(documentId: Option<int>, urlSourceId: Option<int>, content: string, embedding: seq<JsNumber>)

  /** Which source the rows of one ingestion belong to. */
  datatype SourceLink = DocumentLink(id: int) | UrlLink(id: int)

  /** Why an ingestion request failed. */
  datatype IngestError =
    | NoFile
    | ExtractionFailed
    | DuplicateUrl
    | NoChunks
    | EmbeddingFailed(cause: EmbedError)
    | MalformedEmbedding
    | EmptyEmbedding
    | NonNumericEmbedding
    | InsertRejected

  /** Accepts or refuses one `INSERT INTO "VectorEntries"`: the database
      checks the `vector` column's width and values, the code does not. */
  type InsertCheck = VectorEntry -> bool

  /** `Number(v)` for each element. */
  function ToNumbers(xs: seq<JsValue>): (ns: seq<JsNumber>)
    ensures |ns| == |xs|
    ensures forall i :: 0 <= i < |xs| ==>
      ns[i] == (if xs[i].Num? then xs[i].n else xs[i].asNumber)
  {
    if xs == [] then []
    else
      var rest := ToNumbers(xs[1..]);
      var head := if xs[0].Num? then xs[0].n else xs[0].asNumber;
      assert forall i :: 1 <= i < |xs| ==> ([head] + rest)[i] == rest[i - 1];
      [head] + rest
  }

  /** The checks made on an embedding before it is inserted: an array is
      mapped through `Number`; then an empty result, or one holding NaN,
      aborts. Anything but an array fails when its length is read. */
  function ValidateEmbedding(e: Embedding): (r: Result<seq<JsNumber>, IngestError>)
  {
    match e
    case NotAnArray => Failure(MalformedEmbedding)
    case Vector(xs) =>
      var ns := ToNumbers(xs);
      if |ns| == 0 then Failure(EmptyEmbedding)
      else if exists i :: 0 <= i < |ns| && ns[i].NaN? then Failure(NonNumericEmbedding)
      else Success(ns)
  }

  /** An embedding passes exactly when it is a non-empty array none of
      whose elements converts to NaN, and then the stored vector is the
      converted array; the two failures are told apart. */
  lemma {:induction false} ValidateEmbeddingSpec(e: Embedding)
    ensures ValidateEmbedding(e).Success? <==>
      e.Vector? && |e.elems| > 0 && forall i :: 0 <= i < |e.elems| ==> !ToNumbers(e.elems)[i].NaN?
    ensures ValidateEmbedding(e).Success? ==> ValidateEmbedding(e).value == ToNumbers(e.elems)
    ensures e.Vector? && |e.elems| == 0 ==> ValidateEmbedding(e) == Failure(EmptyEmbedding)
    ensures e.Vector? && (exists i :: 0 <= i < |e.elems| && ToNumbers(e.elems)[i].NaN?) ==>
      ValidateEmbedding(e) == Failure(NonNumericEmbedding)
  {
    if e.Vector? {
      var ns := ToNumbers(e.elems);
      if exists i :: 0 <= i < |ns| && ns[i].NaN? {
        var i :| 0 <= i < |ns| && ns[i].NaN?;
        assert ToNumbers(e.elems)[i].NaN?;
      } else {
        assert forall j :: 0 <= j < |e.elems| ==> !ToNumbers(e.elems)[j].NaN?;
      }
    }
  }

  /** The row stored for one chunk. */
  function EntryFor(link: SourceLink, chunk: string, v: seq<JsNumber>): VectorEntry {
    match link
    case DocumentLink(id) => VectorEntry(Some(id), None, chunk, v)
    case UrlLink(id) => VectorEntry(None, Some(id), chunk, v)
  }

  /** One iteration of the ingestion loop: embed the chunk with the default
      providers, validate, insert. */
  function ChunkRow(chunk: string, link: SourceLink, env: Env, oracle: EmbedOracle, accepts: InsertCheck): Result<VectorEntry, IngestError> {
    match FallbackOutcome(chunk, DefaultEmbeddingProviders, env, oracle)
    case Failure(err) => Failure(EmbeddingFailed(err))
    case Success(emb) =>
      match ValidateEmbedding(emb)
      case Failure(err) => Failure(err)
      case Success(v) =>
        var row := EntryFor(link, chunk, v);
        if accepts(row) then Success(row) else Failure(InsertRejected)
  }

  /** The rest of the loop, `done` holding the rows inserted so far. */
  function IngestFrom(chunks: seq<string>, done: seq<VectorEntry>, link: SourceLink, env: Env, oracle: EmbedOracle, accepts: InsertCheck): Result<seq<VectorEntry>, IngestError>
    decreases |chunks|
  {
    if chunks == [] then Success(done)
    else
      match ChunkRow(chunks[0], link, env, oracle, accepts)
      case Failure(err) => Failure(err)
      case Success(row) => IngestFrom(chunks[1..], done + [row], link, env, oracle, accepts)
  }

  /** The rows a whole ingestion inserts, or the error that aborts it. */
  function Ingest(chunks: seq<string>, link: SourceLink, env: Env, oracle: EmbedOracle, accepts: InsertCheck): Result<seq<VectorEntry>, IngestError> {
    IngestFrom(chunks, [], link, env, oracle, accepts)
  }

  /** The loop succeeds exactly when every chunk does; it then holds one
      row per chunk, in chunk order, each the chunk's own row. */
  lemma {:induction false} IngestFromSpec(chunks: seq<string>, done: seq<VectorEntry>, link: SourceLink, env: Env, oracle: EmbedOracle, accepts: InsertCheck)
    ensures IngestFrom(chunks, done, link, env, oracle, accepts).Success? <==>
      forall i :: 0 <= i < |chunks| ==> ChunkRow(chunks[i], link, env, oracle, accepts).Success?
    ensures IngestFrom(chunks, done, link, env, oracle, accepts).Success? ==>
      var rows := IngestFrom(chunks, done, link, env, oracle, accepts).value;
      |rows| == |done| + |chunks| && rows[..|done|] == done
      && forall i :: 0 <= i < |chunks| ==> rows[|done| + i] == ChunkRow(chunks[i], link, env, oracle, accepts).value
  {
    IngestFromOk(chunks, done, link, env, oracle, accepts);
    if IngestFrom(chunks, done, link, env, oracle, accepts).Success? {
      IngestFromRows(chunks, done, link, env, oracle, accepts, IngestFrom(chunks, done, link, env, oracle, accepts).value);
    }
  }

  /** The loop succeeds exactly when every chunk does. */
  lemma {:induction false} IngestFromOk(chunks: seq<string>, done: seq<VectorEntry>, link: SourceLink, env: Env, oracle: EmbedOracle, accepts: InsertCheck)
    ensures IngestFrom(chunks, done, link, env, oracle, accepts).Success? <==>
      forall i :: 0 <= i < |chunks| ==> ChunkRow(chunks[i], link, env, oracle, accepts).Success?
    decreases |chunks|
  {
    if chunks != [] {
      var first := ChunkRow(chunks[0], link, env, oracle, accepts);
      forall i | 0 <= i < |chunks| - 1 ensures chunks[1..][i] == chunks[i + 1] { }
      if first.Success? {
        IngestFromOk(chunks[1..], done + [first.value], link, env, oracle, accepts);
      }
    }
  }

  /** A successful loop appends one row per chunk, in chunk order, each the
      chunk's own row. */
  lemma {:induction false} IngestFromRows(chunks: seq<string>, done: seq<VectorEntry>, link: SourceLink, env: Env, oracle: EmbedOracle, accepts: InsertCheck,
                                          rows: seq<VectorEntry>)
    requires IngestFrom(chunks, done, link, env, oracle, accepts) == Success(rows)
    ensures |rows| == |done| + |chunks| && rows[..|done|] == done
    ensures forall i :: 0 <= i < |chunks| ==> ChunkRow(chunks[i], link, env, oracle, accepts) == Success(rows[|done| + i])
    decreases |chunks|
  {
    if chunks == [] {
      assert rows == done;
    } else {
      var first := ChunkRow(chunks[0], link, env, oracle, accepts);
      var done' := done + [first.value];
      IngestFromRows(chunks[1..], done', link, env, oracle, accepts, rows);
      assert rows[..|done|] == done'[..|done|] by {
        assert rows[..|done'|] == done';
      }
      forall i | 0 <= i < |chunks|
        ensures ChunkRow(chunks[i], link, env, oracle, accepts) == Success(rows[|done| + i])
      {
        if i == 0 {
          assert rows[|done|] == done'[|done|];
        } else {
          assert chunks[1..][i - 1] == chunks[i];
          assert |done'| + (i - 1) == |done| + i;
        }
      }
    }
  }

  /** What the ingestion rows say: one per chunk, in order, each holding
      its chunk and linked to the new source only. */
  lemma {:induction false} IngestRows(chunks: seq<string>, link: SourceLink, env: Env, oracle: EmbedOracle, accepts: InsertCheck)
    requires Ingest(chunks, link, env, oracle, accepts).Success?
    ensures
      var rows := Ingest(chunks, link, env, oracle, accepts).value;
      |rows| == |chunks|
      && forall i :: 0 <= i < |rows| ==> rows[i].content == chunks[i] && LinkedTo(rows[i], link)
  {
    IngestFromSpec(chunks, [], link, env, oracle, accepts);
    var rows := Ingest(chunks, link, env, oracle, accepts).value;
    forall i | 0 <= i < |rows| ensures rows[i].content == chunks[i] && LinkedTo(rows[i], link) {
      assert rows[0 + i] == ChunkRow(chunks[i], link, env, oracle, accepts).value;
    }
  }

  /** One bad chunk aborts the whole ingestion. */
  lemma {:induction false} IngestAbortsOnBadChunk(chunks: seq<string>, k: nat, link: SourceLink, env: Env, oracle: EmbedOracle, accepts: InsertCheck)
    requires k < |chunks| && ChunkRow(chunks[k], link, env, oracle, accepts).Failure?
    ensures Ingest(chunks, link, env, oracle, accepts).Failure?
  {
    IngestFromSpec(chunks, [], link, env, oracle, accepts);
  }

  /** `row` belongs to exactly the source `link` names. */
  predicate LinkedTo(row: VectorEntry, link: SourceLink) {
    match link
    case DocumentLink(id) => row.documentId == Some(id) && row.urlSourceId.None?
    case UrlLink(id) => row.urlSourceId == Some(id) && row.documentId.None?
  }

  /** What `uploadDocument` commits (the new Document and its rows) or the
      error it answers with; `id` is the next Document id. */
  function UploadOutcome(file: Option<FileInfo>, text: Option<string>, uploaderId: int, id: int, env: Env, oracle: EmbedOracle, accepts: InsertCheck): Result<(Document, seq<VectorEntry>), IngestError> {
    if file.None? then Failure(NoFile)
    else if text.None? then Failure(ExtractionFailed)
    else
      var chunks := Chunks(text.value, ChunkSize);
      if chunks == [] then Failure(NoChunks)
      else
        var f := file.value;
        var doc := Document(id, f.filename, f.originalname, f.mimetype, f.size, uploaderId);
        match Ingest(chunks, DocumentLink(id), env, oracle, accepts)
        case Failure(err) => Failure(err)
        case Success(rows) => Success((doc, rows))
  }

  /** Whether `uploadDocument` gets as far as `Document.create`, which
      takes an id from the sequence even when the transaction is later
      rolled back. */
  predicate CreatesDocument(file: Option<FileInfo>, text: Option<string>) {
    file.Some? && text.Some? && Chunks(text.value, ChunkSize) != []
  }

  /** A document whose text is empty or only whitespace is refused before
      any Document is created. */
  lemma {:induction false} BlankDocumentRejected(file: FileInfo, text: string, uploaderId: int, id: int, env: Env, oracle: EmbedOracle, accepts: InsertCheck)
    requires IsBlank(text)
    ensures UploadOutcome(Some(file), Some(text), uploaderId, id, env, oracle, accepts) == Failure(NoChunks)
    ensures !CreatesDocument(Some(file), Some(text))
  {
    ChunksEmptyIffBlank(text, ChunkSize);
  }

  /** A successful upload creates the Document with the given id and file
      attributes, and one row per chunk of its text, in order, each linked
      to that Document. */
  lemma {:induction false} UploadSuccess(file: Option<FileInfo>, text: Option<string>, uploaderId: int, id: int, env: Env, oracle: EmbedOracle, accepts: InsertCheck)
    requires UploadOutcome(file, text, uploaderId, id, env, oracle, accepts).Success?
    ensures file.Some? && text.Some? && CreatesDocument(file, text)
    ensures
      var (doc, rows) := UploadOutcome(file, text, uploaderId, id, env, oracle, accepts).value;
      var chunks := Chunks(text.value, ChunkSize);
      && doc == Document(id, file.value.filename, file.value.originalname, file.value.mimetype, file.value.size, uploaderId)
      && |rows| == |chunks| && |chunks| > 0
      && forall i :: 0 <= i < |rows| ==> rows[i].content == chunks[i] && LinkedTo(rows[i], DocumentLink(id))
  {
    IngestRows(Chunks(text.value, ChunkSize), DocumentLink(id), env, oracle, accepts);
  }

  /** What `addUrlSource` commits (the new UrlSource and its rows) or the
      error it answers with; `id` is the next UrlSource id and `taken`
      says whether the url is already stored. */
  function AddUrlOutcome(url: string, title: Option<string>, description: Option<string>, addedBy: int, taken: bool, text: Option<string>, id: int, env: Env, oracle: EmbedOracle, accepts: InsertCheck): Result<(UrlSource, seq<VectorEntry>), IngestError> {
    if taken then Failure(DuplicateUrl)
    else if text.None? then Failure(ExtractionFailed)
    else
      var chunks := Chunks(text.value, ChunkSize);
      if chunks == [] then Failure(NoChunks)
      else
        match Ingest(chunks, UrlLink(id), env, oracle, accepts)
        case Failure(err) => Failure(err)
        case Success(rows) => Success((UrlSource(id, url, title, description, addedBy), rows))
  }

  /** A page whose text is empty or only whitespace is refused, although
      its UrlSource row was already written (and is rolled back). */
  lemma {:induction false} BlankPageRejected(url: string, title: Option<string>, description: Option<string>, addedBy: int, text: string, id: int, env: Env, oracle: EmbedOracle, accepts: InsertCheck)
    requires IsBlank(text)
    ensures AddUrlOutcome(url, title, description, addedBy, false, Some(text), id, env, oracle, accepts) == Failure(NoChunks)
  {
    ChunksEmptyIffBlank(text, ChunkSize);
  }

  /** A successful URL ingestion creates the UrlSource with the given id
      and one row per chunk of the page text, in order, linked to it. */
  lemma {:induction false} AddUrlSuccess(url: string, title: Option<string>, description: Option<string>, addedBy: int, taken: bool, text: Option<string>, id: int, env: Env, oracle: EmbedOracle, accepts: InsertCheck)
    requires AddUrlOutcome(url, title, description, addedBy, taken, text, id, env, oracle, accepts).Success?
    ensures !taken && text.Some?
    ensures
      var (src, rows) := AddUrlOutcome(url, title, description, addedBy, taken, text, id, env, oracle, accepts).value;
      var chunks := Chunks(text.value, ChunkSize);
      && src == UrlSource(id, url, title, description, addedBy)
      && |rows| == |chunks| && |chunks| > 0
      && forall i :: 0 <= i < |rows| ==> rows[i].content == chunks[i] && LinkedTo(rows[i], UrlLink(id))
  {
    IngestRows(Chunks(text.value, ChunkSize), UrlLink(id), env, oracle, accepts);
  }

  /** The HTTP status of an upload: 201 on success, 400 without a file,
      500 for every other failure. */
  function UploadStatus(r: Result<(Document, seq<VectorEntry>), IngestError>): (status: int)
    ensures status == 201 <==> r.Success?
    ensures status == 400 <==> r == Failure(NoFile)
    ensures status == 500 <==> r.Failure? && r.error != NoFile
  {
    match r
    case Success(_) => 201
    case Failure(NoFile) => 400
    case Failure(_) => 500
  }

  /** The HTTP status of `addUrlSource`: 201 on success, else 500. */
  function AddUrlStatus(r: Result<(UrlSource, seq<VectorEntry>), IngestError>): (status: int)
    ensures status == 201 <==> r.Success?
    ensures status == 500 <==> r.Failure?
  {
    if r.Success? then 201 else 500
  }

  /** A row is linked to `id` through either column. */
  predicate MentionsId(e: VectorEntry, id: int) {
    e.documentId == Some(id) || e.urlSourceId == Some(id)
  }

  /** The `where` tests of the four `destroy` calls of `deleteSource(id)`,
      as the rows each one keeps. */
  function OtherDocument(id: int): Document -> bool {
    (d: Document) => d.id != id
  }

  function OtherUrlSource(id: int): UrlSource -> bool {
    (u: UrlSource) => u.id != id
  }

  function NotFromDocument(id: int): VectorEntry -> bool {
    (e: VectorEntry) => e.documentId != Some(id)
  }

  function NotFromUrlSource(id: int): VectorEntry -> bool {
    (e: VectorEntry) => e.urlSourceId != Some(id)
  }

  /** The entries `deleteSource(id)` leaves: the two `VectorEntry.destroy`
      calls, one after the other. */
  function EntriesAfterDelete(entries: seq<VectorEntry>, id: int): seq<VectorEntry> {
    Filter(Filter(entries, NotFromDocument(id)), NotFromUrlSource(id))
  }

  /** Deleting removes exactly the rows linked to `id` through either
      column and keeps every other row, in order and with multiplicity. */
  lemma {:induction false} EntriesAfterDeleteSpec(entries: seq<VectorEntry>, id: int)
    ensures forall e :: e in EntriesAfterDelete(entries, id) <==> e in entries && !MentionsId(e, id)
    ensures forall e :: multiset(EntriesAfterDelete(entries, id))[e] == if MentionsId(e, id) then 0 else multiset(entries)[e]
    ensures IsSubsequence(EntriesAfterDelete(entries, id), entries)
  {
    var keep: VectorEntry -> bool := (e: VectorEntry) => !MentionsId(e, id);
    FilterFilter(entries, NotFromDocument(id), NotFromUrlSource(id), keep);
    FilterMembers(entries, keep);
    FilterCount(entries, keep);
    FilterOrder(entries, keep);
  }

  /** Every row is linked to exactly one source. */
  predicate OneLink(e: VectorEntry) {
    e.documentId.Some? != e.urlSourceId.Some?
  }

  /** Some Document has this id. */
  predicate HasDocument(docs: seq<Document>, id: int) {
    exists i :: 0 <= i < |docs| && docs[i].id == id
  }

  /** Some UrlSource has this id. */
  predicate HasUrlSource(srcs: seq<UrlSource>, id: int) {
    exists i :: 0 <= i < |srcs| && srcs[i].id == id
  }

  /** Some stored UrlSource has this url (the column is unique). */
  predicate UrlTaken(srcs: seq<UrlSource>, url: string) {
    exists i :: 0 <= i < |srcs| && srcs[i].url == url
  }

  /** The row points at a source that exists. */
  predicate LinkResolves(e: VectorEntry, docs: seq<Document>, srcs: seq<UrlSource>) {
    (e.documentId.Some? ==> HasDocument(docs, e.documentId.value))
    && (e.urlSourceId.Some? ==> HasUrlSource(srcs, e.urlSourceId.value))
  }

  /** The embedding loop shared by both handlers: the rows, from which
      nothing is written until the caller commits. */
  method IngestChunks(chunks: seq<string>, link: SourceLink, env: Env, oracle: EmbedOracle, accepts: InsertCheck)
    returns (r: Result<seq<VectorEntry>, IngestError>)
    ensures r == Ingest(chunks, link, env, oracle, accepts)
  {
    var pending: seq<VectorEntry> := [];
    var i := 0;
    while i < |chunks|
      invariant 0 <= i <= |chunks|
      invariant Ingest(chunks, link, env, oracle, accepts) == IngestFrom(chunks[i..], pending, link, env, oracle, accepts)
    {
      assert chunks[i..][1..] == chunks[i + 1..];
      var chunk := chunks[i];
      var emb, _ := GetEmbeddingWithFallback(chunk, DefaultEmbeddingProviders, env, oracle);
      if emb.Failure? {
        return Failure(EmbeddingFailed(emb.error));
      }
      var v := ValidateEmbedding(emb.value);
      if v.Failure? {
        return Failure(v.error);
      }
      var row := EntryFor(link, chunk, v.value);
      if !accepts(row) {
        return Failure(InsertRejected);
      }
      pending := pending + [row];
      i := i + 1;
    }
    r := Success(pending);
  }

  /** Deleting rows keeps every remaining id below its sequence. */
  lemma {:induction false} DeleteKeepsIds(docs: seq<Document>, srcs: seq<UrlSource>, id: int,
                                          nextDoc: int, nextSrc: int, docs': seq<Document>, srcs': seq<UrlSource>)
    requires forall i :: 0 <= i < |docs| ==> docs[i].id < nextDoc
    requires forall i :: 0 <= i < |srcs| ==> srcs[i].id < nextSrc
    requires docs' == Filter(docs, OtherDocument(id)) && srcs' == Filter(srcs, OtherUrlSource(id))
    ensures forall i :: 0 <= i < |docs'| ==> docs'[i].id < nextDoc
    ensures forall i :: 0 <= i < |srcs'| ==> srcs'[i].id < nextSrc
  {
    FilterMembers(docs, OtherDocument(id));
    FilterMembers(srcs, OtherUrlSource(id));
    forall i | 0 <= i < |docs'|
      ensures docs'[i].id < nextDoc
    {
      assert docs'[i] in docs;
    }
    forall i | 0 <= i < |srcs'|
      ensures srcs'[i].id < nextSrc
    {
      assert srcs'[i] in srcs;
    }
  }

  /** After a deletion every remaining row still has one link, and that
      link still resolves: the rows that pointed at the deleted source are
      gone with it. */
  lemma {:induction false} DeleteKeepsLinks(docs: seq<Document>, srcs: seq<UrlSource>, entries: seq<VectorEntry>, id: int,
                                            docs': seq<Document>, srcs': seq<UrlSource>, entries': seq<VectorEntry>)
    requires forall i :: 0 <= i < |entries| ==> OneLink(entries[i]) && LinkResolves(entries[i], docs, srcs)
    requires docs' == Filter(docs, OtherDocument(id)) && srcs' == Filter(srcs, OtherUrlSource(id))
    requires entries' == EntriesAfterDelete(entries, id)
    ensures forall i :: 0 <= i < |entries'| ==> OneLink(entries'[i]) && LinkResolves(entries'[i], docs', srcs')
  {
    EntriesAfterDeleteSpec(entries, id);
    FilterMembers(docs, OtherDocument(id));
    FilterMembers(srcs, OtherUrlSource(id));
    forall i | 0 <= i < |entries'|
      ensures OneLink(entries'[i]) && LinkResolves(entries'[i], docs', srcs')
    {
      var e := entries'[i];
      assert e in entries && !MentionsId(e, id);
      var k :| 0 <= k < |entries| && entries[k] == e;
      if e.documentId.Some? {
        var j :| 0 <= j < |docs| && docs[j].id == e.documentId.value;
        assert docs[j] in docs';
      }
      if e.urlSourceId.Some? {
        var j :| 0 <= j < |srcs| && srcs[j].id == e.urlSourceId.value;
        assert srcs[j] in srcs';
      }
    }
  }

  /** The three tables and the two id sequences. */
  class KnowledgeBase {
    var documents: seq<Document>
    var urlSources: seq<UrlSource>
    var entries: seq<VectorEntry>
    var nextDocumentId: int
    var nextUrlSourceId: int

    /** Ids come from the sequences, every row has exactly one link and
        that link resolves. */
    ghost predicate Valid()
      reads this
    {
      && (forall i :: 0 <= i < |documents| ==> documents[i].id < nextDocumentId)
      && (forall i :: 0 <= i < |urlSources| ==> urlSources[i].id < nextUrlSourceId)
      && (forall i :: 0 <= i < |entries| ==> OneLink(entries[i]) && LinkResolves(entries[i], documents, urlSources))
    }

    constructor ()
      ensures Valid()
      ensures documents == [] && urlSources == [] && entries == []
    {
      documents := [];
      urlSources := [];
      entries := [];
      nextDocumentId := 1;
      nextUrlSourceId := 1;
    }

    /** `nextval` on the Document id sequence. */
    method TakeDocumentId() returns (id: int)
      requires Valid()
      modifies this
      ensures Valid()
      ensures id == old(nextDocumentId) && nextDocumentId == id + 1
      ensures documents == old(documents) && urlSources == old(urlSources) && entries == old(entries)
      ensures nextUrlSourceId == old(nextUrlSourceId)
    {
      id := nextDocumentId;
      nextDocumentId := nextDocumentId + 1;
    }

    /** `nextval` on the UrlSource id sequence. */
    method TakeUrlSourceId() returns (id: int)
      requires Valid()
      modifies this
      ensures Valid()
      ensures id == old(nextUrlSourceId) && nextUrlSourceId == id + 1
      ensures documents == old(documents) && urlSources == old(urlSources) && entries == old(entries)
      ensures nextDocumentId == old(nextDocumentId)
    {
      id := nextUrlSourceId;
      nextUrlSourceId := nextUrlSourceId + 1;
    }

    /** `uploadDocument`: on success the Document and its rows are
        committed together; on any failure every table is as before, and
        only the Document id, once taken, stays used. */
    method UploadDocument(file: Option<FileInfo>, text: Option<string>, uploaderId: int, env: Env, oracle: EmbedOracle, accepts: InsertCheck)
      returns (r: Result<(Document, seq<VectorEntry>), IngestError>, status: int)
      requires Valid()
      modifies this
      ensures Valid()
      ensures r == UploadOutcome(file, text, uploaderId, old(nextDocumentId), env, oracle, accepts)
      ensures status == UploadStatus(r)
      ensures nextDocumentId == old(nextDocumentId) + (if CreatesDocument(file, text) then 1 else 0)
      ensures nextUrlSourceId == old(nextUrlSourceId) && urlSources == old(urlSources)
      ensures r.Success? ==> documents == old(documents) + [r.value.0] && entries == old(entries) + r.value.1
      ensures r.Failure? ==> documents == old(documents) && entries == old(entries)
    {
      if file.None? {
        r := Failure(NoFile);
        status := UploadStatus(r);
        return;
      }
      if text.None? {
        r := Failure(ExtractionFailed);
        status := UploadStatus(r);
        return;
      }
      var chunks := ChunkText(text.value, ChunkSize);
      if |chunks| == 0 {
        r := Failure(NoChunks);
        status := UploadStatus(r);
        return;
      }
      var id := TakeDocumentId();
      var f := file.value;
      var doc := Document(id, f.filename, f.originalname, f.mimetype, f.size, uploaderId);
      var rows := IngestChunks(chunks, DocumentLink(id), env, oracle, accepts);
      if rows.Failure? {
        r := Failure(rows.error);
        status := UploadStatus(r);
        return;
      }
      IngestRows(chunks, DocumentLink(id), env, oracle, accepts);
      CommitDocument(doc, rows.value);
      r := Success((doc, rows.value));
      status := UploadStatus(r);
    }

    /** `transaction.commit()` for an upload. */
    method CommitDocument(doc: Document, rows: seq<VectorEntry>)
      requires Valid()
      requires doc.id < nextDocumentId
      requires forall i :: 0 <= i < |rows| ==> LinkedTo(rows[i], DocumentLink(doc.id))
      modifies this
      ensures Valid()
      ensures documents == old(documents) + [doc] && entries == old(entries) + rows
      ensures urlSources == old(urlSources)
      ensures nextDocumentId == old(nextDocumentId) && nextUrlSourceId == old(nextUrlSourceId)
    {
      var oldDocs := documents;
      documents := documents + [doc];
      assert documents[|oldDocs|] == doc;
      forall i | 0 <= i < |entries| ensures LinkResolves(entries[i], documents, urlSources) {
        var e := entries[i];
        if e.documentId.Some? {
          var j :| 0 <= j < |oldDocs| && oldDocs[j].id == e.documentId.value;
          assert documents[j] == oldDocs[j];
        }
      }
      var oldEntries := entries;
      entries := entries + rows;
      forall i | 0 <= i < |entries| ensures OneLink(entries[i]) && LinkResolves(entries[i], documents, urlSources) {
        if i >= |oldEntries| {
          assert entries[i] == rows[i - |oldEntries|];
        } else {
          assert entries[i] == oldEntries[i];
        }
      }
    }

    /** `addUrlSource`: the UrlSource id is taken first, so it stays used
        whatever happens next; on success the UrlSource and its rows are
        committed together, on any failure every table is as before. */
    method AddUrlSource(url: string, title: Option<string>, description: Option<string>, addedBy: int, text: Option<string>, env: Env, oracle: EmbedOracle, accepts: InsertCheck)
      returns (r: Result<(UrlSource, seq<VectorEntry>), IngestError>, status: int)
      requires Valid()
      modifies this
      ensures Valid()
      ensures r == AddUrlOutcome(url, title, description, addedBy, UrlTaken(old(urlSources), url), text, old(nextUrlSourceId), env, oracle, accepts)
      ensures status == AddUrlStatus(r)
      ensures nextUrlSourceId == old(nextUrlSourceId) + 1
      ensures nextDocumentId == old(nextDocumentId) && documents == old(documents)
      ensures r.Success? ==> urlSources == old(urlSources) + [r.value.0] && entries == old(entries) + r.value.1
      ensures r.Failure? ==> urlSources == old(urlSources) && entries == old(entries)
    {
      var taken := UrlTaken(urlSources, url);
      var id := TakeUrlSourceId();
      if taken {
        r := Failure(DuplicateUrl);
        status := AddUrlStatus(r);
        return;
      }
      var src := UrlSource(id, url, title, description, addedBy);
      if text.None? {
        r := Failure(ExtractionFailed);
        status := AddUrlStatus(r);
        return;
      }
      var chunks := ChunkText(text.value, ChunkSize);
      if |chunks| == 0 {
        r := Failure(NoChunks);
        status := AddUrlStatus(r);
        return;
      }
      var rows := IngestChunks(chunks, UrlLink(id), env, oracle, accepts);
      if rows.Failure? {
        r := Failure(rows.error);
        status := AddUrlStatus(r);
        return;
      }
      IngestRows(chunks, UrlLink(id), env, oracle, accepts);
      CommitUrlSource(src, rows.value);
      r := Success((src, rows.value));
      status := AddUrlStatus(r);
    }

    /** `transaction.commit()` for a URL source. */
    method CommitUrlSource(src: UrlSource, rows: seq<VectorEntry>)
      requires Valid()
      requires src.id < nextUrlSourceId
      requires forall i :: 0 <= i < |rows| ==> LinkedTo(rows[i], UrlLink(src.id))
      modifies this
      ensures Valid()
      ensures urlSources == old(urlSources) + [src] && entries == old(entries) + rows
      ensures documents == old(documents)
      ensures nextDocumentId == old(nextDocumentId) && nextUrlSourceId == old(nextUrlSourceId)
    {
      var oldSrcs := urlSources;
      urlSources := urlSources + [src];
      assert urlSources[|oldSrcs|] == src;
      forall i | 0 <= i < |entries| ensures LinkResolves(entries[i], documents, urlSources) {
        var e := entries[i];
        if e.urlSourceId.Some? {
          var j :| 0 <= j < |oldSrcs| && oldSrcs[j].id == e.urlSourceId.value;
          assert urlSources[j] == oldSrcs[j];
        }
      }
      var oldEntries := entries;
      entries := entries + rows;
      forall i | 0 <= i < |entries| ensures OneLink(entries[i]) && LinkResolves(entries[i], documents, urlSources) {
        if i >= |oldEntries| {
          assert entries[i] == rows[i - |oldEntries|];
        } else {
          assert entries[i] == oldEntries[i];
        }
      }
    }

    /** `deleteSource(id)`: the Document with that id, the UrlSource with
        that id, then the rows linked to it through either column. */
    method DeleteSource(id: int)
      requires Valid()
      modifies this
      ensures Valid()
      ensures documents == Filter(old(documents), OtherDocument(id))
      ensures urlSources == Filter(old(urlSources), OtherUrlSource(id))
      ensures entries == EntriesAfterDelete(old(entries), id)
      ensures nextDocumentId == old(nextDocumentId) && nextUrlSourceId == old(nextUrlSourceId)
    {
      var oldDocs := documents;
      var oldSrcs := urlSources;
      var oldEntries := entries;
      documents := Filter(documents, OtherDocument(id));
      urlSources := Filter(urlSources, OtherUrlSource(id));
      entries := EntriesAfterDelete(entries, id);
      DeleteKeepsIds(oldDocs, oldSrcs, id, nextDocumentId, nextUrlSourceId, documents, urlSources);
      DeleteKeepsLinks(oldDocs, oldSrcs, oldEntries, id, documents, urlSources, entries);
    }
  }
}
