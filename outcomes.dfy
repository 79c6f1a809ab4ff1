/** Optional values, results and the pipeline's error conditions. */
module Outcomes {

  datatype Option<+T> = None | Some(value: T) {
    /**
     * The value, or `default` when there is none, as `dict.get(key, default)`.
     * With `default == ""` it is also a string's `x or ""`.
     */
    function GetOr(default: T): T {
      match this
      case Some(v) => v
      case None => default
    }
  }

  datatype Result<+T, +E> = Ok(value: T) | Err(error: E)

  /**
   * Every failure of the pipeline is a `ValueError` in the source; the
   * variants name the distinct raise sites, `Message` gives their text.
   */
  datatype Error =
    | MissingIndex
    | EmptyContent
    | BlankNamespace
    | MissingEnvironment(name: string)
    | UnsupportedFormat
    | NoPages
    | NoExtractableText
    | NoChunks

  function Message(e: Error): (m: string)
    ensures m != ""
  {
    match e
    case MissingIndex => "Index cannot be None"
    case EmptyContent => "Document content cannot be empty"
    case BlankNamespace => "Namespace cannot be empty"
    case MissingEnvironment(name) => "Environment variable '" + name + "' is required."
    case UnsupportedFormat => "Unsupported file type. Only PDF is supported in this setup."
    case NoPages => "PDF contains no pages"
    case NoExtractableText => "No extractable text found in the PDF"
    case NoChunks => "Failed to create any text chunks from the document"
  }

  /**
   * `_require_env`: the variable's value, which must be present and
   * non-empty. `value` is what the environment holds for `name`.
   */
  function RequireEnv(name: string, value: Option<string>): Result<string, Error>
  {
    if value.None? || value.value == "" then Err(MissingEnvironment(name)) else Ok(value.value)
  }

  /** The two ways `RequireEnv` ends, in the form proofs about its callers use. */
  lemma RequireEnvCases(name: string, value: Option<string>)
    ensures RequireEnv(name, value).Ok? <==> value.Some? && value.value != ""
    ensures RequireEnv(name, value).Err? ==> RequireEnv(name, value).error == MissingEnvironment(name)
  {
  }
}
