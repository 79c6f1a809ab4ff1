/**
 * `process_document`: validate the upload, extract and chunk its text,
 * embed the chunks, build one record per chunk and upsert the records into
 * the index in batches of fifty, all under the caller's namespace.
 */
module Ingestion {
  import opened Outcomes
  import opened SeqFacts
  import opened PyStr
  import opened Providers
  import opened VectorStore
  import opened Extraction
  import opened Chunking

  newtype byte = x: int | 0 <= x < 256

  /** The bytes of `b"%PDF"`. */
  const PdfMagic: seq<byte> := [0x25, 0x50, 0x44, 0x46]

  const BatchSize: nat := 50
  const FileType: string := "pdf"

  /** `document_content.startswith(b"%PDF")` */
  predicate StartsWithPdfMagic(content: seq<byte>)
    ensures StartsWithPdfMagic(content) <==>
      4 <= |content| && forall k :: 0 <= k < 4 ==> content[k] as int == "%PDF"[k] as int
  {
    |PdfMagic| <= |content| && content[..|PdfMagic|] == PdfMagic
  }

  /** What `hashlib.md5(...).hexdigest()` returns: 32 lower-case hexadecimal digits. */
  predicate IsHexDigest(d: string)
  {
    |d| == 32 && forall i :: 0 <= i < |d| ==> d[i] in "0123456789abcdef"
  }

  /** `hexdigest()[:8]` */
  function ShortHash(hexDigest: string): (h: string)
    ensures IsHexDigest(hexDigest) ==> |h| == 8 && h == hexDigest[..8]
  {
    hexDigest[..SliceBound(8, |hexDigest|)]
  }

  /**
   * `f"{namespace}-{chunk_hash}-{i}"`, where `digest` stands for
   * `hashlib.md5(chunk.encode()).hexdigest()`.
   */
  function RecordId(namespace: string, chunk: string, i: nat, digest: string -> string): (id: string)
    ensures |namespace| < |id| && id[..|namespace|] == namespace && id[|namespace|] == '-'
    ensures |DecimalString(i)| < |id| && id[|id| - |DecimalString(i)| - 1] == '-'
      && id[|id| - |DecimalString(i)|..] == DecimalString(i)
  {
    namespace + "-" + ShortHash(digest(chunk)) + "-" + DecimalString(i)
  }

  /** The record built for chunk `i` and its vector. */
  function MakeRecord(namespace: string, chunk: string, vector: Embedding, i: nat, digest: string -> string)
    : (record: VectorRecord)
    ensures record.metadata.charCount == |record.metadata.text|
    ensures |record.metadata.namespace| < |record.id|
      && record.id[..|record.metadata.namespace|] == record.metadata.namespace
    ensures |DecimalString(record.metadata.chunkIndex)| < |record.id|
      && record.id[|record.id| - |DecimalString(record.metadata.chunkIndex)|..]
         == DecimalString(record.metadata.chunkIndex)
  {
    VectorRecord(
      RecordId(namespace, chunk, i, digest),
      vector,
      Metadata(chunk, i, namespace, |chunk|, FileType))
  }

  /** The `vectors` list: one record per pair of `zip(chunks, embeddings)`. */
  function BuildRecords(namespace: string, chunks: seq<string>, embeddings: seq<Embedding>, digest: string -> string)
    : (records: seq<VectorRecord>)
    ensures |records| == if |chunks| < |embeddings| then |chunks| else |embeddings|
    ensures forall i :: 0 <= i < |records| ==>
      records[i] == MakeRecord(namespace, chunks[i], embeddings[i], i, digest)
  {
    var n := if |chunks| < |embeddings| then |chunks| else |embeddings|;
    seq(n, i requires 0 <= i < n => MakeRecord(namespace, chunks[i], embeddings[i], i, digest))
  }

  /** `vectors[i:i + batch_size]` for `i` in `range(0, len(vectors), batch_size)`. */
  function Batches<T>(items: seq<T>): (batches: seq<seq<T>>)
    ensures forall b :: b in batches ==> 1 <= |b| <= BatchSize
    ensures |batches| == (|items| + BatchSize - 1) / BatchSize
    decreases |items|
  {
    if items == [] then []
    else if |items| <= BatchSize then [items]
    else [items[..BatchSize]] + Batches(items[BatchSize..])
  }

  /** The batches laid end to end. */
  function Flatten<T>(batches: seq<seq<T>>): seq<T>
  {
    if batches == [] then [] else batches[0] + Flatten(batches[1..])
  }

  /** One upsert call per batch, each under `namespace`. */
  function UpsertCalls(batches: seq<seq<VectorRecord>>, namespace: string): (calls: seq<UpsertCall>)
    ensures |calls| == |batches|
    ensures forall k :: 0 <= k < |calls| ==> calls[k] == UpsertCall(batches[k], namespace)
  {
    seq(|batches|, k requires 0 <= k < |batches| => UpsertCall(batches[k], namespace))
  }

  /** The chunks `process_document` asks for: at most 1500 characters, default overlap. */
  function DocumentChunks(text: string): seq<string>
  {
    ChunkSpec(text, DefaultMaxChunkSize, DefaultOverlap)
  }

  /** The embeddings the provider returns for the chunks. */
  function ChunkEmbeddings(chunks: seq<string>, genai: GenAI): seq<Embedding>
  {
    genai.embedDocuments(EmbeddingModel, chunks, RetrievalDocument, DocumentTitle)
  }

  /** The records `process_document` builds from the extracted text. */
  function DocumentRecords(namespace: string, text: string, genai: GenAI, digest: string -> string): seq<VectorRecord>
  {
    BuildRecords(namespace, DocumentChunks(text), ChunkEmbeddings(DocumentChunks(text), genai), digest)
  }

  /** The upsert calls `process_document` makes for the extracted text. */
  function DocumentUpserts(namespace: string, text: string, genai: GenAI, digest: string -> string): seq<UpsertCall>
  {
    UpsertCalls(Batches(DocumentRecords(namespace, text, genai, digest)), namespace)
  }

  /**
   * `process_document`: the upsert calls it makes, in order, or the error
   * it raises. `hasIndex` is the truth of `index`; `pages` is what the PDF
   * reader finds in `content`.
   */
  function Ingest(hasIndex: bool, content: seq<byte>, namespace: string, pages: seq<Option<string>>,
                  genai: GenAI, digest: string -> string): (r: Result<seq<UpsertCall>, Error>)
    ensures r.Ok? ==> Admitted(hasIndex, content, namespace, genai)
    ensures r.Ok? ==> ExtractText(pages).Ok? && DocumentChunks(ExtractText(pages).value) != []
  {
    RequireEnvCases(ApiKeyVariable, genai.apiKey);
    if !hasIndex then Err(MissingIndex)
    else if content == [] then Err(EmptyContent)
    else if namespace == "" || Strip(namespace) == "" then Err(BlankNamespace)
    else if RequireEnv(ApiKeyVariable, genai.apiKey).Err? then Err(RequireEnv(ApiKeyVariable, genai.apiKey).error)
    else if !StartsWithPdfMagic(content) then Err(UnsupportedFormat)
    else if ExtractText(pages).Err? then Err(ExtractText(pages).error)
    else if DocumentChunks(ExtractText(pages).value) == [] then Err(NoChunks)
    else Ok(DocumentUpserts(namespace, ExtractText(pages).value, genai, digest))
  }

  /**
   * `process_document`, step by step: on success it returns `true` and the
   * index has received exactly the calls `Ingest` lists; on an error the
   * index has received nothing.
   */
  method ProcessDocument(index: VectorIndex?, content: seq<byte>, namespace: string,
                         pages: seq<Option<string>>, genai: GenAI, digest: string -> string)
    returns (r: Result<bool, Error>)
    modifies index
    ensures r.Ok? <==> Ingest(index != null, content, namespace, pages, genai, digest).Ok?
    ensures r.Ok? ==> r.value
    ensures r.Err? ==> Ingest(index != null, content, namespace, pages, genai, digest) == Err(r.error)
    ensures index != null && r.Ok? ==>
      index.upserts == old(index.upserts) + Ingest(index != null, content, namespace, pages, genai, digest).value
    ensures index != null && r.Err? ==> index.upserts == old(index.upserts)
  {
    if index == null {
      return Err(MissingIndex);
    }
    if content == [] {
      return Err(EmptyContent);
    }
    if namespace == "" || Strip(namespace) == "" {
      return Err(BlankNamespace);
    }
    var apiKey := RequireEnv(ApiKeyVariable, genai.apiKey);
    if apiKey.Err? {
      return Err(apiKey.error);
    }
    if !StartsWithPdfMagic(content) {
      return Err(UnsupportedFormat);
    }
    var fullText := ExtractTextFromPdf(pages);
    if fullText.Err? {
      return Err(fullText.error);
    }
    var chunks := ChunkText(fullText.value, DefaultMaxChunkSize, DefaultOverlap);
    if chunks == [] {
      return Err(NoChunks);
    }
    var embeddings := genai.embedDocuments(EmbeddingModel, chunks, RetrievalDocument, DocumentTitle);

    var vectors := BuildVectors(namespace, chunks, embeddings, digest);
    UpsertInBatches(index, vectors, namespace);
    return Ok(true);
  }

  /** The loop of `process_document` that pairs each chunk with its vector. */
  method BuildVectors(namespace: string, chunks: seq<string>, embeddings: seq<Embedding>, digest: string -> string)
    returns (vectors: seq<VectorRecord>)
    ensures vectors == BuildRecords(namespace, chunks, embeddings, digest)
  {
    var pairs := if |chunks| < |embeddings| then |chunks| else |embeddings|;
    vectors := [];
    for i := 0 to pairs
      invariant |vectors| == i
      invariant forall k :: 0 <= k < i ==> vectors[k] == MakeRecord(namespace, chunks[k], embeddings[k], k, digest)
    {
      var chunkHash := ShortHash(digest(chunks[i]));
      var vectorId := namespace + "-" + chunkHash + "-" + DecimalString(i);
      vectors := vectors + [VectorRecord(vectorId, embeddings[i], Metadata(chunks[i], i, namespace, |chunks[i]|, FileType))];
    }
  }

  /** The upsert loop of `process_document`: one call per batch of fifty, in order. */
  method UpsertInBatches(index: VectorIndex, vectors: seq<VectorRecord>, namespace: string)
    modifies index
    ensures index.upserts == old(index.upserts) + UpsertCalls(Batches(vectors), namespace)
  {
    var i := 0;
    while i < |vectors|
      invariant index.upserts + UpsertCalls(Batches(vectors[SliceBound(i, |vectors|)..]), namespace)
        == old(index.upserts) + UpsertCalls(Batches(vectors), namespace)
      decreases |vectors| - i
    {
      var batch := vectors[i..SliceBound(i + BatchSize, |vectors|)];
      BatchesStep(vectors, i);
      UpsertCallsCons(batch, Batches(vectors[SliceBound(i + BatchSize, |vectors|)..]), namespace);
      ConcatAssoc(index.upserts, [UpsertCall(batch, namespace)],
        UpsertCalls(Batches(vectors[SliceBound(i + BatchSize, |vectors|)..]), namespace));
      index.Upsert(batch, namespace);
      i := i + BatchSize;
    }
  }

  /** Python's `range` step: the batch at `i` and the batches after it. */
  lemma BatchesStep<T>(items: seq<T>, i: nat)
    requires i < |items|
    ensures Batches(items[i..])
      == [items[i..SliceBound(i + BatchSize, |items|)]] + Batches(items[SliceBound(i + BatchSize, |items|)..])
  {
    var s := items[i..];
    if |s| > BatchSize {
      assert s[..BatchSize] == items[i..i + BatchSize];
      assert s[BatchSize..] == items[i + BatchSize..];
    } else {
      assert SliceBound(i + BatchSize, |items|) == |items|;
      assert s == items[i..|items|];
      assert items[|items|..] == [];
    }
  }

  lemma UpsertCallsCons(batch: seq<VectorRecord>, rest: seq<seq<VectorRecord>>, namespace: string)
    ensures UpsertCalls([batch] + rest, namespace) == [UpsertCall(batch, namespace)] + UpsertCalls(rest, namespace)
  {
  }

  /** The batches, laid end to end, are the records in their original order. */
  lemma {:induction false} BatchesFlatten<T>(items: seq<T>)
    ensures Flatten(Batches(items)) == items
    decreases |items|
  {
    if |items| > BatchSize {
      BatchesFlatten(items[BatchSize..]);
      assert ([items[..BatchSize]] + Batches(items[BatchSize..]))[1..] == Batches(items[BatchSize..]);
      assert items[..BatchSize] + items[BatchSize..] == items;
    } else if items != [] {
      assert [items][1..] == [];
      assert items + [] == items;
    }
  }

  /** Every batch but the last holds exactly fifty records. */
  lemma {:induction false} BatchesFull<T>(items: seq<T>)
    ensures forall k :: 0 <= k < |Batches(items)| - 1 ==> |Batches(items)[k]| == BatchSize
    decreases |items|
  {
    if |items| > BatchSize {
      var rest := Batches(items[BatchSize..]);
      BatchesFull(items[BatchSize..]);
      assert forall k :: 1 <= k < |Batches(items)| ==> Batches(items)[k] == rest[k - 1];
    }
  }

  /** The records carried by the calls are the batched records, in order. */
  lemma {:induction false} UploadedCalls(batches: seq<seq<VectorRecord>>, namespace: string)
    ensures Uploaded(UpsertCalls(batches, namespace)) == Flatten(batches)
  {
    if batches != [] {
      UploadedCalls(batches[1..], namespace);
      assert UpsertCalls(batches, namespace)[1..] == UpsertCalls(batches[1..], namespace);
    }
  }

  /**
   * A record id reads back as the namespace, a dash, the first eight hex
   * digits of the chunk's digest, a dash and the chunk's position.
   */
  lemma RecordIdParts(namespace: string, chunk: string, i: nat, digest: string -> string)
    requires IsHexDigest(digest(chunk))
    ensures |RecordId(namespace, chunk, i, digest)| == |namespace| + 10 + |DecimalString(i)|
    ensures RecordId(namespace, chunk, i, digest)[..|namespace|] == namespace
    ensures RecordId(namespace, chunk, i, digest)[|namespace|] == '-'
    ensures RecordId(namespace, chunk, i, digest)[|namespace| + 1..|namespace| + 9] == digest(chunk)[..8]
    ensures RecordId(namespace, chunk, i, digest)[|namespace| + 9] == '-'
    ensures RecordId(namespace, chunk, i, digest)[|namespace| + 10..] == DecimalString(i)
  {
    var h := ShortHash(digest(chunk));
    var id := RecordId(namespace, chunk, i, digest);
    assert id == namespace + ("-" + h + "-" + DecimalString(i));
    assert id[|namespace|..] == "-" + h + "-" + DecimalString(i);
  }

  /** Within one document the record ids are pairwise distinct. */
  lemma RecordIdsDistinct(namespace: string, chunks: seq<string>, embeddings: seq<Embedding>, digest: string -> string)
    requires forall c :: c in chunks ==> IsHexDigest(digest(c))
    ensures forall i, j :: 0 <= i < j < |BuildRecords(namespace, chunks, embeddings, digest)| ==>
      BuildRecords(namespace, chunks, embeddings, digest)[i].id != BuildRecords(namespace, chunks, embeddings, digest)[j].id
  {
    var records := BuildRecords(namespace, chunks, embeddings, digest);
    forall i, j | 0 <= i < j < |records|
      ensures records[i].id != records[j].id
    {
      RecordIdParts(namespace, chunks[i], i, digest);
      RecordIdParts(namespace, chunks[j], j, digest);
      if records[i].id == records[j].id {
        DecimalStringInjective(i, j);
      }
    }
  }

  /** The checks `process_document` makes before it reads the PDF, all passed. */
  predicate Admitted(hasIndex: bool, content: seq<byte>, namespace: string, genai: GenAI)
  {
    hasIndex && content != [] && !AllSpace(namespace)
    && RequireEnv(ApiKeyVariable, genai.apiKey).Ok? && StartsWithPdfMagic(content)
  }

  /**
   * The errors of `process_document`, in the order it checks for them: each
   * is raised exactly when every earlier check has passed and its own fails.
   */
  lemma IngestErrors(hasIndex: bool, content: seq<byte>, namespace: string, pages: seq<Option<string>>,
                     genai: GenAI, digest: string -> string)
    ensures Ingest(hasIndex, content, namespace, pages, genai, digest) == Err(MissingIndex) <==> !hasIndex
    ensures Ingest(hasIndex, content, namespace, pages, genai, digest) == Err(EmptyContent)
      <==> hasIndex && content == []
    ensures Ingest(hasIndex, content, namespace, pages, genai, digest) == Err(BlankNamespace)
      <==> hasIndex && content != [] && AllSpace(namespace)
    ensures Ingest(hasIndex, content, namespace, pages, genai, digest) == Err(MissingEnvironment(ApiKeyVariable))
      <==> hasIndex && content != [] && !AllSpace(namespace) && (genai.apiKey.None? || genai.apiKey.value == "")
    ensures Ingest(hasIndex, content, namespace, pages, genai, digest) == Err(UnsupportedFormat)
      <==> hasIndex && content != [] && !AllSpace(namespace) && RequireEnv(ApiKeyVariable, genai.apiKey).Ok?
           && !StartsWithPdfMagic(content)
    ensures Ingest(hasIndex, content, namespace, pages, genai, digest) == Err(NoPages)
      <==> Admitted(hasIndex, content, namespace, genai) && pages == []
    ensures Ingest(hasIndex, content, namespace, pages, genai, digest) == Err(NoExtractableText)
      <==> Admitted(hasIndex, content, namespace, genai) && pages != []
           && forall i :: 0 <= i < |pages| ==> AllSpace(PageText(pages[i]))
    ensures Ingest(hasIndex, content, namespace, pages, genai, digest) == Err(NoChunks)
      <==> Admitted(hasIndex, content, namespace, genai) && ExtractText(pages).Ok?
           && DocumentChunks(ExtractText(pages).value) == []
  {
    RequireEnvCases(ApiKeyVariable, genai.apiKey);
    ExtractTextOutcome(pages);
  }

  /**
   * What a successful `process_document` sends: every call is under the
   * caller's namespace and carries one to fifty records, and the calls
   * carry, in order, one record per chunk that received a vector.
   */
  lemma DocumentUpsertsStore(namespace: string, text: string, genai: GenAI, digest: string -> string)
    ensures forall c :: c in DocumentUpserts(namespace, text, genai, digest) ==>
      c.namespace == namespace && 1 <= |c.vectors| <= BatchSize
    ensures Uploaded(DocumentUpserts(namespace, text, genai, digest)) == DocumentRecords(namespace, text, genai, digest)
    ensures |DocumentUpserts(namespace, text, genai, digest)|
      == (|DocumentRecords(namespace, text, genai, digest)| + BatchSize - 1) / BatchSize
  {
    CallsOfRecords(DocumentRecords(namespace, text, genai, digest), namespace);
  }

  /**
   * Each stored record holds a chunk of more than fifty characters, its
   * length, its position and the namespace.
   */
  lemma DocumentRecordsMetadata(namespace: string, text: string, genai: GenAI, digest: string -> string)
    ensures |DocumentRecords(namespace, text, genai, digest)| <= |DocumentChunks(text)|
    ensures forall k :: 0 <= k < |DocumentRecords(namespace, text, genai, digest)| ==>
      DocumentRecords(namespace, text, genai, digest)[k].metadata
        == Metadata(DocumentChunks(text)[k], k, namespace, |DocumentChunks(text)[k]|, FileType)
      && |Strip(DocumentRecords(namespace, text, genai, digest)[k].metadata.text)| > MinChunkLength
  {
    var chunks := DocumentChunks(text);
    var records := DocumentRecords(namespace, text, genai, digest);
    forall k | 0 <= k < |records|
      ensures |Strip(records[k].metadata.text)| > MinChunkLength
    {
      assert chunks[k] in chunks;
    }
  }

  /** The batched calls carry every record once, in order, under one namespace. */
  lemma CallsOfRecords(records: seq<VectorRecord>, namespace: string)
    ensures forall c :: c in UpsertCalls(Batches(records), namespace) ==>
      c.namespace == namespace && 1 <= |c.vectors| <= BatchSize
    ensures Uploaded(UpsertCalls(Batches(records), namespace)) == records
    ensures |UpsertCalls(Batches(records), namespace)| == (|records| + BatchSize - 1) / BatchSize
  {
    UploadedCalls(Batches(records), namespace);
    BatchesFlatten(records);
  }

  /**
   * `zip` stops at the shorter list: when the provider returns no vectors,
   * `process_document` still succeeds and stores nothing.
   */
  lemma IngestWithoutVectors(hasIndex: bool, content: seq<byte>, namespace: string, pages: seq<Option<string>>,
                             genai: GenAI, digest: string -> string)
    requires Admitted(hasIndex, content, namespace, genai)
    requires ExtractText(pages).Ok? && DocumentChunks(ExtractText(pages).value) != []
    requires ChunkEmbeddings(DocumentChunks(ExtractText(pages).value), genai) == []
    ensures Ingest(hasIndex, content, namespace, pages, genai, digest) == Ok([])
  {
    RequireEnvCases(ApiKeyVariable, genai.apiKey);
  }

  /**
   * A text whose sentences all fit into one buffer gives at most one chunk,
   * so `process_document` makes at most one upsert call: exactly one when
   * that chunk receives a vector, carrying that chunk's record alone.
   */
  lemma ShortDocumentSingleCall(namespace: string, text: string, genai: GenAI, digest: string -> string)
    requires EachFits(Sentences(text), DefaultMaxChunkSize, DefaultOverlap)
    ensures |DocumentUpserts(namespace, text, genai, digest)| <= 1
    ensures |DocumentUpserts(namespace, text, genai, digest)| == 1
      <==> DocumentChunks(text) != [] && ChunkEmbeddings(DocumentChunks(text), genai) != []
    ensures |DocumentUpserts(namespace, text, genai, digest)| == 1 ==>
      DocumentUpserts(namespace, text, genai, digest)[0] == UpsertCall(
        [MakeRecord(namespace, DocumentChunks(text)[0], ChunkEmbeddings(DocumentChunks(text), genai)[0], 0, digest)],
        namespace)
  {
    var chunks := DocumentChunks(text);
    var embeddings := ChunkEmbeddings(chunks, genai);
    var records := BuildRecords(namespace, chunks, embeddings, digest);
    ShortDocumentOneChunk(text);
    assert records == DocumentRecords(namespace, text, genai, digest);
    CallsOfFewRecords(records, namespace);
  }

  /** A text whose sentences all fit gives at most one chunk. */
  lemma ShortDocumentOneChunk(text: string)
    requires EachFits(Sentences(text), DefaultMaxChunkSize, DefaultOverlap)
    ensures |DocumentChunks(text)| <= 1
  {
    ChunkSpecWithinLimit(text, DefaultMaxChunkSize, DefaultOverlap);
  }

  /** At most one record goes out in at most one call, carrying it. */
  lemma CallsOfFewRecords(records: seq<VectorRecord>, namespace: string)
    requires |records| <= 1
    ensures |UpsertCalls(Batches(records), namespace)| == |records|
    ensures records != [] ==> UpsertCalls(Batches(records), namespace)[0] == UpsertCall(records, namespace)
  {
    if records != [] {
      assert Batches(records) == [records];
    }
  }
}
