/**
 * The embedding and generation provider, seen from the pipeline: opaque
 * functions plus the API key the environment holds. Their behaviour is not
 * modelled; only what the pipeline passes to them and does with their
 * results is.
 */
module Providers {
  import opened Outcomes

  /** An embedding vector; the pipeline only carries it from the provider to the index. */
  type Embedding = seq<real>

  /** The intent tag sent with an embedding request. */
  datatype TaskType = RetrievalDocument | RetrievalQuery

  datatype GenerationConfig = GenerationConfig(temperature: real, maxOutputTokens: nat)

  const ApiKeyVariable: string := "GOOGLE_API_KEY"
  const EmbeddingModel: string := "models/text-embedding-004"
  const GenerationModel: string := "gemini-2.5-flash"
  const DocumentTitle: string := "Document Chunks"

  /**
   * `apiKey` is what the environment holds for `GOOGLE_API_KEY`.
   * `embedDocuments(model, texts, task, title)` is the `embedding` list of a
   * batch request, `embedQuery(model, text, task)` the `embedding` of a
   * single-text request, and `generate(model, prompt, config)` the
   * response's `text` attribute (`None` when it is missing or `None`).
   */
  datatype GenAI = GenAI(
    apiKey: Option<string>,
    embedDocuments: (string, seq<string>, TaskType, string) -> seq<Embedding>,
    embedQuery: (string, string, TaskType) -> Embedding,
    generate: (string, string, GenerationConfig) -> Option<string>)
}
