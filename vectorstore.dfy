/**
 * The vector index as the pipeline uses it: records with an id, a vector
 * and metadata; an `upsert` that receives a batch of records under a
 * namespace; and a similarity search whose results are opaque.
 */
module VectorStore {
  import opened Outcomes
  import opened Providers

  datatype Metadata = Metadata(
    text: string,
    chunkIndex: nat,
    namespace: string,
    charCount: nat,
    fileType: string)

  datatype VectorRecord = VectorRecord(id: string, values: Embedding, metadata: Metadata)

  /** One `index.upsert(vectors=..., namespace=...)` call. */
  datatype UpsertCall = UpsertCall(vectors: seq<VectorRecord>, namespace: string)

  /** Every record the calls carry, call after call. */
  function Uploaded(calls: seq<UpsertCall>): seq<VectorRecord>
  {
    if calls == [] then [] else calls[0].vectors + Uploaded(calls[1..])
  }

  /** A query match, reduced to its metadata's `text` entry (`None` when absent). */
  datatype Match = Match(text: Option<string>)

  /**
   * A handle on the index. `upserts` is every upsert call it has received,
   * in order; `search(namespace, vector, topK, includeMetadata)` is the
   * `matches` list of a query (empty when the response has none).
   */
  class VectorIndex {
    var upserts: seq<UpsertCall>
    const search: (string, Embedding, nat, bool) -> seq<Match>

    constructor (search: (string, Embedding, nat, bool) -> seq<Match>)
      ensures upserts == [] && this.search == search
    {
      this.search := search;
      upserts := [];
    }

    /** `index.upsert(vectors=vectors, namespace=namespace)` */
    method Upsert(vectors: seq<VectorRecord>, namespace: string)
      modifies this
      ensures upserts == old(upserts) + [UpsertCall(vectors, namespace)]
    {
      upserts := upserts + [UpsertCall(vectors, namespace)];
    }
  }
}
