/**
 * `get_answer`: embed the question, retrieve the eight nearest chunks in
 * the caller's namespace, and ask the generator to answer from them alone.
 * The provider and index calls are recorded, in order, next to the answer.
 */
module Answering {
  import opened Outcomes
  import opened PyStr
  import opened Providers
  import opened VectorStore

  const TopK: nat := 8
  const ContextSeparator: string := "\n\n---\n\n"
  const Instruction: string := "Answer the question using ONLY the provided context. Be precise and concise.\n\n"
  const InvalidQuestion: string := "Please enter a valid question."
  const NoActiveDocument: string := "No active document. Please upload and process a document first."
  const NothingFound: string := "I couldn't find relevant information in the processed document."
  const NoAnswer: string := "No answer generated."
  const AnswerConfig: GenerationConfig := GenerationConfig(0.0, 1024)

  /** A call `get_answer` makes to the provider or the index. */
  datatype Request =
    | EmbedQuestion(model: string, text: string, task: TaskType)
    | QueryIndex(namespace: string, topK: nat, includeMetadata: bool)
    | GenerateAnswer(model: string, prompt: string, config: GenerationConfig)

  /** The string `get_answer` returns, and the calls it made on the way. */
  datatype Reply = Reply(answer: string, requests: seq<Request>)

  /** `[m["metadata"].get("text", "") for m in matches]` */
  function ContextParts(matches: seq<Match>): seq<string>
  {
    seq(|matches|, i requires 0 <= i < |matches| => matches[i].text.GetOr(""))
  }

  /**
   * The context block: the retrieved texts in rank order, separated by
   * rules; it opens with the best match's text.
   */
  function Context(matches: seq<Match>): (context: string)
    ensures matches != [] ==>
      |matches[0].text.GetOr("")| <= |context| && context[..|matches[0].text.GetOr("")|] == matches[0].text.GetOr("")
  {
    Join(ContextSeparator, ContextParts(matches))
  }

  /** The text in front of the context in the prompt. */
  const PromptHead: string := Instruction + "Context:\n"

  /** The prompt sent to the generator. */
  function Prompt(context: string, question: string): (prompt: string)
    ensures |prompt| == |PromptHead| + |context| + |"\n\nQuestion: "| + |question| + |"\n\nAnswer:"|
  {
    PromptHead + context + "\n\nQuestion: " + question + "\n\nAnswer:"
  }

  /**
   * `(getattr(response, "text", "") or "No answer generated.").strip()`;
   * the fallback message has no surrounding whitespace, so stripping it
   * leaves it as it is (`FinalAnswerFallback`).
   */
  function FinalAnswer(generated: Option<string>): (answer: string)
    ensures answer == [] <==> generated.Some? && generated.value != "" && AllSpace(generated.value)
  {
    if generated.Some? && generated.value != "" then Strip(generated.value) else NoAnswer
  }

  /** `not s or not s.strip()` */
  predicate Blank(s: string)
  {
    s == "" || Strip(s) == ""
  }

  /**
   * `get_answer(index, question, namespace)`: the answer, or the error it
   * raises. The index's search and the provider's calls are the opaque
   * functions of `index` and `genai`.
   */
  function GetAnswer(index: VectorIndex?, question: string, namespace: string, genai: GenAI): (r: Result<Reply, Error>)
    ensures r.Err? ==> r.error == MissingIndex || r.error == MissingEnvironment(ApiKeyVariable)
    ensures r.Ok? ==> |r.value.requests| <= 3
    ensures r.Ok? && r.value.requests != [] ==>
      index != null && !Blank(question) && !Blank(namespace) && genai.apiKey.Some? && genai.apiKey.value != ""
  {
    RequireEnvCases(ApiKeyVariable, genai.apiKey);
    if index == null then Err(MissingIndex)
    else if Blank(question) then Ok(Reply(InvalidQuestion, []))
    else if Blank(namespace) then Ok(Reply(NoActiveDocument, []))
    else if RequireEnv(ApiKeyVariable, genai.apiKey).Err? then Err(RequireEnv(ApiKeyVariable, genai.apiKey).error)
    else Ok(Respond(Retrieve(index, question, namespace, genai), question, namespace, genai))
  }

  /** The matches the index returns for the embedded question. */
  function Retrieve(index: VectorIndex, question: string, namespace: string, genai: GenAI): seq<Match>
  {
    index.search(namespace, genai.embedQuery(EmbeddingModel, question, RetrievalQuery), TopK, true)
  }

  /** The part of `get_answer` after the guards, given what the index returned. */
  function Respond(matches: seq<Match>, question: string, namespace: string, genai: GenAI): Reply
  {
    var retrieval := [EmbedQuestion(EmbeddingModel, question, RetrievalQuery), QueryIndex(namespace, TopK, true)];
    if matches == [] then Reply(NothingFound, retrieval)
    else
      var prompt := Prompt(Context(matches), question);
      Reply(FinalAnswer(genai.generate(GenerationModel, prompt, AnswerConfig)),
            retrieval + [GenerateAnswer(GenerationModel, prompt, AnswerConfig)])
  }

  /**
   * The guards of `get_answer`, in order: a missing index raises; a blank
   * question, then a blank namespace, return a fixed message without any
   * call; a missing API key raises. Nothing else raises.
   */
  lemma GetAnswerGuards(index: VectorIndex?, question: string, namespace: string, genai: GenAI)
    ensures GetAnswer(index, question, namespace, genai) == Err(MissingIndex) <==> index == null
    ensures index != null && AllSpace(question) ==>
      GetAnswer(index, question, namespace, genai) == Ok(Reply(InvalidQuestion, []))
    ensures index != null && !AllSpace(question) && AllSpace(namespace) ==>
      GetAnswer(index, question, namespace, genai) == Ok(Reply(NoActiveDocument, []))
    ensures GetAnswer(index, question, namespace, genai) == Err(MissingEnvironment(ApiKeyVariable))
      <==> index != null && !AllSpace(question) && !AllSpace(namespace)
           && (genai.apiKey.None? || genai.apiKey.value == "")
    ensures GetAnswer(index, question, namespace, genai).Err? ==>
      GetAnswer(index, question, namespace, genai).error in {MissingIndex, MissingEnvironment(ApiKeyVariable)}
  {
    RequireEnvCases(ApiKeyVariable, genai.apiKey);
  }

  /** Once the guards pass, `get_answer` retrieves and responds, and raises nothing. */
  lemma GetAnswerAdmitted(index: VectorIndex, question: string, namespace: string, genai: GenAI)
    requires !AllSpace(question) && !AllSpace(namespace) && RequireEnv(ApiKeyVariable, genai.apiKey).Ok?
    ensures GetAnswer(index, question, namespace, genai)
      == Ok(Respond(Retrieve(index, question, namespace, genai), question, namespace, genai))
  {
  }

  /**
   * `get_answer` embeds the question as given, as a retrieval query, then
   * queries the index for the eight nearest chunks of the caller's
   * namespace with their metadata; without matches it answers that nothing
   * was found and asks the generator nothing; with matches it asks the
   * generator once, deterministically (temperature 0, at most 1024 output
   * tokens), with the prompt built from the matches, and answers with the
   * generator's output, stripped.
   */
  lemma RespondRequests(matches: seq<Match>, question: string, namespace: string, genai: GenAI)
    ensures |Respond(matches, question, namespace, genai).requests| == if matches == [] then 2 else 3
    ensures Respond(matches, question, namespace, genai).requests[0]
      == EmbedQuestion(EmbeddingModel, question, RetrievalQuery)
    ensures Respond(matches, question, namespace, genai).requests[1] == QueryIndex(namespace, 8, true)
    ensures forall k :: 0 <= k < |Respond(matches, question, namespace, genai).requests| ==>
      (Respond(matches, question, namespace, genai).requests[k].QueryIndex? <==> k == 1)
    ensures matches == [] ==> Respond(matches, question, namespace, genai).answer == NothingFound
    ensures matches != [] ==>
      Respond(matches, question, namespace, genai).requests[2]
        == GenerateAnswer(GenerationModel, Prompt(Context(matches), question), GenerationConfig(0.0, 1024))
    ensures matches != [] ==>
      Respond(matches, question, namespace, genai).answer
        == FinalAnswer(genai.generate(GenerationModel, Prompt(Context(matches), question), AnswerConfig))
  {
    var retrieval := [EmbedQuestion(EmbeddingModel, question, RetrievalQuery), QueryIndex(namespace, TopK, true)];
    var reply := Respond(matches, question, namespace, genai);
    if matches == [] {
      assert reply == Reply(NothingFound, retrieval);
    } else {
      var prompt := Prompt(Context(matches), question);
      assert reply == Reply(FinalAnswer(genai.generate(GenerationModel, prompt, AnswerConfig)),
                            retrieval + [GenerateAnswer(GenerationModel, prompt, AnswerConfig)]);
    }
    RespondQueries(matches, question, namespace, genai);
  }

  /** Every index query `get_answer` makes stays inside the caller's, non-blank, namespace. */
  lemma GetAnswerStaysInNamespace(index: VectorIndex?, question: string, namespace: string, genai: GenAI, reply: Reply)
    requires GetAnswer(index, question, namespace, genai) == Ok(reply)
    ensures reply.requests != [] ==> !AllSpace(namespace)
    ensures forall k :: 0 <= k < |reply.requests| && reply.requests[k].QueryIndex? ==>
      reply.requests[k].namespace == namespace
  {
    RequireEnvCases(ApiKeyVariable, genai.apiKey);
    if reply.requests != [] {
      assert !Blank(question) && !Blank(namespace) && RequireEnv(ApiKeyVariable, genai.apiKey).Ok?;
      var matches := Retrieve(index, question, namespace, genai);
      assert reply == Respond(matches, question, namespace, genai);
      RespondQueries(matches, question, namespace, genai);
    }
  }

  /** The only index query of the response is the one in the caller's namespace. */
  lemma RespondQueries(matches: seq<Match>, question: string, namespace: string, genai: GenAI)
    ensures forall k :: 0 <= k < |Respond(matches, question, namespace, genai).requests| ==>
      (Respond(matches, question, namespace, genai).requests[k].QueryIndex? <==> k == 1)
    ensures Respond(matches, question, namespace, genai).requests[1] == QueryIndex(namespace, TopK, true)
  {
  }

  /** The prompt reads back as its instruction, context, question and cue. */
  lemma PromptParts(context: string, question: string)
    ensures Prompt(context, question)[..|PromptHead|] == PromptHead
    ensures Prompt(context, question)[|PromptHead|..|PromptHead| + |context|] == context
    ensures Prompt(context, question)[|PromptHead| + |context|..|PromptHead| + |context| + 12] == "\n\nQuestion: "
    ensures Prompt(context, question)[|PromptHead| + |context| + 12..|Prompt(context, question)| - 9] == question
    ensures Prompt(context, question)[|Prompt(context, question)| - 9..] == "\n\nAnswer:"
  {
    var p := Prompt(context, question);
    assert p == PromptHead + (context + ("\n\nQuestion: " + (question + "\n\nAnswer:")));
  }

  /**
   * Every retrieved text appears verbatim in the context, in rank order:
   * the text of match `i` ends, and a separator fits, before that of match
   * `j` starts when `i < j`; between consecutive matches the context holds
   * exactly the separator, and it ends with the last match's text.
   */
  lemma ContextHasMatches(matches: seq<Match>, i: nat, j: nat)
    requires i < j < |matches|
    ensures JoinOffset(ContextSeparator, ContextParts(matches), i) + |matches[i].text.GetOr("")|
      <= |Context(matches)|
    ensures Context(matches)[JoinOffset(ContextSeparator, ContextParts(matches), i)..
      JoinOffset(ContextSeparator, ContextParts(matches), i) + |matches[i].text.GetOr("")|] == matches[i].text.GetOr("")
    ensures JoinOffset(ContextSeparator, ContextParts(matches), j) + |matches[j].text.GetOr("")|
      <= |Context(matches)|
    ensures Context(matches)[JoinOffset(ContextSeparator, ContextParts(matches), j)..
      JoinOffset(ContextSeparator, ContextParts(matches), j) + |matches[j].text.GetOr("")|] == matches[j].text.GetOr("")
    ensures JoinOffset(ContextSeparator, ContextParts(matches), i) + |matches[i].text.GetOr("")| + |ContextSeparator|
      <= JoinOffset(ContextSeparator, ContextParts(matches), j)
    ensures j == i + 1 ==>
      Context(matches)[JoinOffset(ContextSeparator, ContextParts(matches), i) + |matches[i].text.GetOr("")|..
        JoinOffset(ContextSeparator, ContextParts(matches), j)] == ContextSeparator
    ensures j == |matches| - 1 ==>
      |Context(matches)| == JoinOffset(ContextSeparator, ContextParts(matches), j) + |matches[j].text.GetOr("")|
  {
    var parts := ContextParts(matches);
    assert |parts| == |matches| && parts[i] == matches[i].text.GetOr("") && parts[j] == matches[j].text.GetOr("");
    JoinHasPart(ContextSeparator, parts, i);
    JoinHasPart(ContextSeparator, parts, j);
    JoinOffsetIncreasing(ContextSeparator, parts, i, j);
    if j == i + 1 {
      JoinSeparatorAt(ContextSeparator, parts, i);
    }
    if j == |matches| - 1 {
      JoinLength(ContextSeparator, parts);
    }
  }

  /** With a single match, the context is that match's text alone. */
  lemma ContextOfOneMatch(m: Match)
    ensures Context([m]) == m.text.GetOr("")
  {
  }

  /** A missing or empty output becomes "No answer generated.". */
  lemma FinalAnswerFallback(generated: Option<string>)
    requires generated.None? || generated.value == ""
    ensures FinalAnswer(generated) == NoAnswer
    ensures FinalAnswer(generated) != [] && Unpadded(FinalAnswer(generated))
    ensures Strip(FinalAnswer(generated)) == FinalAnswer(generated)
  {
    var a := FinalAnswer(generated);
    assert a == NoAnswer;
    StripFixed(a);
  }

  /**
   * Any other output becomes the output stripped: no surrounding
   * whitespace, its own `strip()`, and empty exactly when the output is
   * whitespace alone.
   */
  lemma FinalAnswerShape(generated: Option<string>)
    requires generated.Some? && generated.value != ""
    ensures FinalAnswer(generated) == [] <==> AllSpace(generated.value)
    ensures Unpadded(FinalAnswer(generated))
    ensures Strip(FinalAnswer(generated)) == FinalAnswer(generated)
  {
    StripIdempotent(generated.value);
  }
}
