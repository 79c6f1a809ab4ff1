# A verified model of the RAG PDF pipeline (`rag_logic.py`)

This project models, in Dafny, the core of a small PDF question-answering
service. The pipeline has two entry points:

- `process_document` ingests a PDF. It checks its inputs, extracts and
  normalises the text of the pages, cuts the text into overlapping chunks
  of sentences, embeds the chunks, builds one record per chunk (id,
  vector, metadata) and upserts the records into a vector index. The
  upserts go in batches of fifty, under the caller's namespace.
- `get_answer` answers a question. It embeds the question, retrieves the
  eight nearest chunks of the namespace, joins their texts into a context
  and asks a generator to answer from that context alone.

The modules follow the source's structure:

| module | file | models |
|---|---|---|
| `Outcomes` | `outcomes.dfy` | optional values and results, the pipeline's error conditions and their messages, `_require_env` |
| `PyStr` | `pystr.dfy` | the Python string built-ins the code relies on: `str.isspace`, `strip`, `split()`, `split(c)`, `join`, slice bounds, `str(n)` |
| `SeqFacts` | `seqfacts.dfy` | generic sequence facts used by the proofs |
| `Providers` | `providers.dfy` | the embedding and generation provider, as opaque functions, plus the API key |
| `VectorStore` | `vectorstore.dfy` | records and metadata; the index as a class whose `Upsert` appends to a log of calls, with an opaque search |
| `Extraction` | `extraction.dfy` | `_extract_text_from_pdf` from the page texts on |
| `Chunking` | `chunking.dfy` | `_chunk_text` |
| `Ingestion` | `ingestion.dfy` | `process_document` |
| `Answering` | `answering.dfy` | `get_answer` |

The code that works step by step is imperative Dafny, proved against a
specification function:

- `Extraction.ExtractTextFromPdf` collects the page texts in a loop.
- `Chunking.ChunkText` runs the packing loop over the sentences.
- `Ingestion.BuildVectors` builds the records in a loop.
- `Ingestion.UpsertInBatches` upserts batch by batch into a
  `VectorStore.VectorIndex` object.

Each of these methods ensures that its result, or the index's new log, is
the value of a function: `ExtractText`, `ChunkSpec`, `BuildRecords` or
`UpsertCalls(Batches(...))`. The lemmas then state what the source
promises about those functions.

`get_answer` only computes a value, so it is a function (`GetAnswer`). It
returns the answer together with the list of provider and index requests
it made, in order.

Environment, network and library calls become parameters:

- the `GOOGLE_API_KEY` value is `GenAI.apiKey`;
- the embedding and generation calls are function fields of `GenAI`;
- the index query is `VectorIndex.search`;
- `hashlib.md5(chunk.encode()).hexdigest()` is a `digest: string -> string`
  parameter;
- the pages the PDF reader finds, each an optional text, are a
  `seq<Option<string>>` input.

`IsSpace` lists Python's `str.isspace` characters, the set shared by
`split()` and `strip()`. The model follows Python's negative slice bounds
and Python's floor division in `words[-overlap // 10:]`.

Behaviour of the code that the lemmas make explicit:

- **No length cap on chunks.** `_chunk_text` does not bound chunk length
  by `max_chunk_size`.
  - Joining a sentence onto the buffer adds a space, so the buffer can be
    one character over the limit (`Chunking.BufferMayExceedLimit`).
  - A sentence carried after an overlap, or the remainder of a truncated
    sentence, can later be emitted whole.
  - Only a truncated sentence's first piece is known to be exactly the
    limit (`Chunking.StepTruncates`).
- **Overlap of 0.** `words[-0:]` carries every word of the closed buffer,
  not none (`Chunking.OverlapWordsCount`).
- **`zip` truncation.** Records are built with `zip`, so a provider that
  returns fewer vectors than chunks silently drops the rest. With no
  vectors, `process_document` still succeeds and stores nothing
  (`Ingestion.IngestWithoutVectors`).
- **Unstripped question.** The question is checked with `strip()` but is
  embedded and placed in the prompt as given.
- **Whitespace-only output.** A generator output of whitespace alone
  becomes the empty answer, not the fallback message
  (`Answering.FinalAnswerShape`).
- **Short text gives one chunk.** A text whose sentences all fit into one
  buffer gives at most one chunk, and that chunk holds all its words
  (`Chunking.ChunkSpecWithinLimit`). Such a text then makes at most one
  upsert call. It makes exactly one when its chunk receives a vector, and
  that call carries the chunk's record alone
  (`Ingestion.ShortDocumentSingleCall`).

Further behaviour of the code that the model keeps:

- Every failure is a `ValueError` with a message; there are no typed
  errors. `Outcomes.Error` names the raise sites.
- The API-key check (`_require_env`) runs between the namespace check and
  the PDF-header check.
- Chunks are not bounded by 1500 characters (see above).
- Ingestion of a PDF with extractable text can still fail, with "Failed to
  create any text chunks from the document", when no chunk exceeds 50
  characters (`Ingestion.IngestErrors`).

## Model

| member | source | states |
|---|---|---|
| Outcomes.Message | rag_logic.py:58-75 | every raise site has a non-empty message (the texts are the source's) |
| PyStr.Strip | rag_logic.py:33 | `strip()` is empty exactly for a blank string; a non-empty result has no whitespace at either end and holds only characters of the input |
| PyStr.StripIdempotent | rag_logic.py:146 | a stripped string has no surrounding whitespace, and stripping it again changes nothing |
| PyStr.Words | rag_logic.py:26 | every word of `split()` is non-empty and free of whitespace |
| PyStr.WordsEmpty | rag_logic.py:26-27 | `split()` gives no words exactly for a blank string |
| PyStr.WordsOfStrip | rag_logic.py:43-44 | a string and its `strip()` have the same words |
| PyStr.WordsOfJoin | rag_logic.py:26 | joining whitespace-free words with single spaces and splitting again gives back the words |
| PyStr.WordsAroundSpace | rag_logic.py:51 | the words of `a + " " + b` are the words of `a` followed by those of `b` |
| PyStr.JoinWordsEmpty | rag_logic.py:26-27 | joining non-empty words gives the empty string only for no words |
| PyStr.SplitOn | rag_logic.py:35 | `split(c)` gives at least one piece; no piece contains `c`; every character of a piece comes from the input |
| PyStr.SplitOnJoin | rag_logic.py:35 | joining the pieces of `split(c)` with `c` gives back the input |
| PyStr.SliceBound | rag_logic.py:45 | a Python slice bound lands where Python puts it: kept inside the sequence, counted from the end when negative, clamped to the end past it and to 0 before the start |
| PyStr.DecimalString | rag_logic.py:89 | `str(i)` is a non-empty string of decimal digits with no leading zero: it starts with `0` only for 0 |
| PyStr.DecimalRoundTrip | rag_logic.py:89 | reading back `str(i)` gives `i` |
| PyStr.DecimalStringInjective | rag_logic.py:89 | distinct positions have distinct `str(i)` |
| PyStr.JoinHasPart | rag_logic.py:137 | each part appears verbatim in the joined string, at its offset |
| PyStr.JoinOffsetIncreasing | rag_logic.py:137 | a later part starts after an earlier part and a separator: the join keeps the parts' order |
| PyStr.JoinLength | rag_logic.py:137 | the joined string ends with its last part: no separator follows it |
| PyStr.JoinSeparatorAt | rag_logic.py:137 | between a part and the next one the joined string holds exactly the separator, and the next part starts right after it |
| Extraction.PageTexts | rag_logic.py:21-24 | one text per page, in page order |
| Extraction.ExtractText | rag_logic.py:19-29 | a successful extraction is never empty |
| Extraction.ExtractTextFromPdf | rag_logic.py:19-29 | the collecting loop computes exactly `ExtractText` |
| Extraction.NormalizeWhitespace | rag_logic.py:25-26 | the normalised text is empty exactly when every page text is blank |
| Extraction.WordsOfJoinedParts | rag_logic.py:25-26 | joining the page texts with spaces keeps exactly their words, in order |
| Extraction.AllWordsEmpty | rag_logic.py:26-28 | the pages have no words exactly when every page text is blank |
| Extraction.NormalizeWhitespaceWords | rag_logic.py:25-26 | the normalised text is the pages' words joined by single spaces, its words are those words, and normalising it again changes nothing |
| Extraction.ExtractTextOutcome | rag_logic.py:19-29 | fails with "no pages" exactly for zero pages, with "no extractable text" exactly when every page text is blank or missing (`extract_text() or ""`); otherwise returns the words joined by single spaces |
| Chunking.UnifyTerminators | rag_logic.py:35 | `!` and `?` become `.`, every other character is kept, and no `!` or `?` remains |
| Chunking.SentencesOf | rag_logic.py:36 | at most one sentence per piece |
| Chunking.StrippedPieceIsSentence | rag_logic.py:36 | a non-blank piece without terminators, stripped and closed with `.`, is a sentence |
| Chunking.SentencesOfShape | rag_logic.py:35-36 | everything built from terminator-free pieces is a sentence |
| Chunking.Sentences | rag_logic.py:35-36 | every sentence is a non-empty body without terminators or surrounding whitespace, followed by one `.` |
| Chunking.SentencesWithoutTerminator | rag_logic.py:35-36 | a non-blank text without terminators is one sentence: the stripped text closed with `.` |
| Chunking.OverlapWords | rag_logic.py:45 | the carried words are a suffix of the buffer's words, and none are carried when there are at most `overlap // 10` |
| Chunking.OverlapWordsCount | rag_logic.py:45 | above the threshold, `ceil(overlap / 10)` words are carried, or every word when `overlap` is 0 |
| Chunking.DefaultOverlapWords | rag_logic.py:45 | with the default overlap of 200, the last 20 words are carried when there are more than 20 |
| Chunking.Step | rag_logic.py:40-51 | one iteration closes one chunk exactly when the sentence does not fit, and never changes the chunks already closed |
| Chunking.Pack | rag_logic.py:38-51 | the loop closes at most one chunk per sentence |
| Chunking.Flush | rag_logic.py:52-53 | the trailing buffer, stripped, is added as one chunk exactly when it is not blank, after the chunks already closed |
| Chunking.KeepSubstantial | rag_logic.py:54 | the filter never adds chunks |
| Chunking.KeepSubstantialMembers | rag_logic.py:54 | the filter keeps exactly the chunks whose stripped length exceeds 50 |
| Chunking.KeepSubstantialAppend | rag_logic.py:54 | the filter distributes over concatenation, so it keeps the order of the chunks |
| Chunking.ChunkSpec | rag_logic.py:32-54 | a blank text gives no chunks, and every chunk's stripped length exceeds 50 |
| Chunking.ChunkText | rag_logic.py:32-54 | the loop computes exactly `ChunkSpec`, and every chunk's stripped length exceeds 50 |
| Chunking.PackSentence | rag_logic.py:41-51 | the loop body performs exactly one `Step` |
| Chunking.StepAppends | rag_logic.py:50-51 | a sentence that fits closes nothing, and the buffer's words become the old words followed by the sentence's |
| Chunking.StepCloses | rag_logic.py:41-46 | a sentence that overflows a non-empty buffer closes the stripped buffer; the next buffer is the carried words, a space and the sentence (or the sentence alone), and its words are the carried words followed by the sentence's |
| Chunking.ClosedBuffer | rag_logic.py:44-46 | the text of the buffer after a close |
| Chunking.ClosedBufferWords | rag_logic.py:44-46 | the words of the buffer after a close: the carried words, then the sentence's |
| Chunking.StepTruncates | rag_logic.py:47-49 | an oversize sentence with an empty buffer is cut: the closed piece has exactly the limit's length, and piece plus remainder give back the sentence |
| Chunking.BufferMayExceedLimit | rag_logic.py:51 | a buffer can grow to one character over the limit |
| Chunking.PackWithinLimit | rag_logic.py:40-51 | while every sentence fits, nothing is closed and the buffer holds all the sentences' words, in order |
| Chunking.PackFits | rag_logic.py:50-51 | packing one more sentence that fits keeps the closed chunks and appends its words |
| Chunking.FlushOpenBufferOnly | rag_logic.py:52-54 | with nothing closed, the result is at most the stripped buffer |
| Chunking.ChunkSpecWithinLimit | rag_logic.py:32-54 | a text whose sentences all fit gives at most one chunk, holding every word of the sentences, in order |
| VectorStore.VectorIndex.Upsert | rag_logic.py:106 | an upsert appends one call, with its batch and namespace, to the index's log |
| Ingestion.StartsWithPdfMagic | rag_logic.py:69 | the header check accepts exactly the uploads whose first four bytes are the ASCII codes of `%PDF` |
| Ingestion.ShortHash | rag_logic.py:88 | the short hash of an MD5 hex digest is its first eight characters |
| Ingestion.RecordId | rag_logic.py:88-89 | an id begins with the namespace and `-`, and ends with `-` and the chunk's position |
| Ingestion.MakeRecord | rag_logic.py:90-100 | a record's `char_count` is its text's length, and its id begins with the namespace and ends with the position stored in its metadata |
| Ingestion.BuildRecords | rag_logic.py:86-100 | there are `min(len(chunks), len(embeddings))` records, and record `i` is built from chunk `i`, vector `i` and position `i` |
| Ingestion.BuildVectors | rag_logic.py:86-100 | the loop computes exactly `BuildRecords` |
| Ingestion.Batches | rag_logic.py:103-105 | `ceil(n / 50)` batches, each of one to fifty records |
| Ingestion.BatchesStep | rag_logic.py:104-105 | the batch at `i` and the batches after it are the batches of the records from `i` on |
| Ingestion.BatchesFlatten | rag_logic.py:104-105 | the batches laid end to end are the records, in order |
| Ingestion.BatchesFull | rag_logic.py:103-105 | every batch but the last holds exactly fifty records |
| Ingestion.UpsertCalls | rag_logic.py:104-106 | one call per batch, in order, each under the namespace |
| Ingestion.UploadedCalls | rag_logic.py:104-106 | the records the calls carry are the batches laid end to end |
| Ingestion.CallsOfRecords | rag_logic.py:102-106 | the batched calls carry every record once, in order, one to fifty per call, `ceil(n / 50)` calls, all under the namespace |
| Ingestion.UpsertInBatches | rag_logic.py:102-106 | the upsert loop appends exactly the batched calls to the index's log |
| Ingestion.RecordIdParts | rag_logic.py:88-89 | an id reads back as namespace, `-`, the digest's first eight characters, `-`, and the position |
| Ingestion.RecordIdsDistinct | rag_logic.py:86-100 | the record ids of one document are pairwise distinct |
| Ingestion.Ingest | rag_logic.py:57-107 | a successful ingestion passed every check: an index, non-empty content, a non-blank namespace, the API key, the PDF header, extractable text and at least one chunk |
| Ingestion.IngestErrors | rag_logic.py:58-75 | each error is raised exactly when every earlier check passes and its own fails, in the source's order; the key check of `_require_env` (rag_logic.py:10-14) fails exactly for a missing or empty `GOOGLE_API_KEY` |
| Ingestion.ProcessDocument | rag_logic.py:57-107 | succeeds (returning `true`) exactly when the model does; on success the index has received exactly the model's calls; on an error it has received nothing |
| Ingestion.DocumentUpsertsStore | rag_logic.py:102-106 | on success every call is under the namespace with one to fifty records, `ceil(n / 50)` calls carry exactly the document's records, in order |
| Ingestion.DocumentRecordsMetadata | rag_logic.py:86-100 | record `k` holds chunk `k` (longer than 50 characters once stripped), its length, position `k`, the namespace and `"pdf"` |
| Ingestion.IngestWithoutVectors | rag_logic.py:87 | with no vectors from the provider, ingestion succeeds and stores nothing |
| Ingestion.ShortDocumentSingleCall | rag_logic.py:73-106 | a text whose sentences all fit into one buffer makes at most one upsert call; exactly one when its chunk receives a vector, carrying that chunk's record alone |
| Answering.Context | rag_logic.py:136-137 | the context opens with the best match's text |
| Answering.Prompt | rag_logic.py:139-142 | the prompt's length is that of its fixed pieces, the context and the question |
| Answering.PromptParts | rag_logic.py:139-142 | the prompt reads back as the instruction, `Context:`, the context, `Question:`, the question and `Answer:` |
| Answering.ContextHasMatches | rag_logic.py:136-137 | every match's text (`""` when its metadata has none) appears verbatim in the context; an earlier match's text ends before a later one's starts, with room for a separator; between consecutive matches the context holds exactly `"\n\n---\n\n"`; the context ends with the last match's text |
| Answering.ContextOfOneMatch | rag_logic.py:136-137 | the context of a single match is its text |
| Answering.GetAnswer | rag_logic.py:110-146 | raises only for a missing index or a missing key; makes at most three calls, and any call only after every guard has passed |
| Answering.GetAnswerGuards | rag_logic.py:111-118 | a missing index raises; a blank question, then a blank namespace, return the fixed messages and make no call; a missing or empty key (`_require_env`, rag_logic.py:10-14) raises; nothing else raises |
| Answering.GetAnswerAdmitted | rag_logic.py:118-146 | once the guards pass, the answer is retrieval followed by the response |
| Answering.RespondRequests | rag_logic.py:120-146 | embed the question, query the index once (top 8, with metadata), then, only with matches, generate once at temperature 0 with at most 1024 tokens; no matches gives the "couldn't find" message |
| Answering.GetAnswerStaysInNamespace | rag_logic.py:126-131 | every index query stays inside the caller's non-blank namespace |
| Answering.FinalAnswer | rag_logic.py:146 | the answer is empty exactly when the generator's output is non-empty whitespace |
| Answering.FinalAnswerFallback | rag_logic.py:146 | a missing or empty output becomes "No answer generated.", which `strip()` leaves unchanged |
| Answering.FinalAnswerShape | rag_logic.py:146 | any other output becomes the stripped output: no surrounding whitespace, its own `strip()`, and empty exactly when the output is whitespace alone |

## Left out

- `app.py` (the Streamlit page, session state and client construction): user interface and wiring, not pipeline logic.
- PDF parsing (`PdfReader`, `page.extract_text`): a foreign library. Its result, one optional text per page, is the input `pages`. A reader that raises on a malformed file is not modelled.
- `genai.configure`: a side effect on the provider library. Only the API-key check before it is modelled.
- Provider and index failures (network, quota, a failing upsert midway through the batches): the collaborators are total functions here, so an exception they raise and its propagation are not modelled.
- MD5: `hashlib.md5(chunk.encode()).hexdigest()` is the parameter `digest`. UTF-8 encoding and the hash itself are not modelled; the id lemmas assume a 32-digit lower-case hex digest.
- Embedding vectors are carried as opaque `seq<real>` values. The dict-or-object normalisation of the embedding result (rag_logic.py:84) is a dynamic-typing detail and is not modelled.
- Query results: a match is reduced to the `text` entry of its metadata. A match without a `metadata` key, which raises `KeyError` in the source, is not modelled. A response without `matches` is the empty list returned by `search`.
- The generator's response is reduced to its `text` attribute (`None` when missing). An exception raised while reading it is not modelled.
- Truthiness of `index`: only a missing index (`None`) is modelled as false. An index object that Python would treat as falsy is not.
- Answering.FinalAnswer: applies `strip()` only to the generator's output, not to the fallback message. `Answering.FinalAnswerFallback` proves that stripping the fallback leaves it unchanged, so the result is the same as the source's.
- Outcomes.Message: its contract states only that every message is non-empty; the exact texts are its definition.
- Chunking.ChunkSpecWithinLimit: covers only texts whose sentences all fit into one buffer. For longer texts the model states the properties of each step (`StepCloses`, `StepTruncates`, `StepAppends`) rather than a closed form of the whole chunk list.
