/** The per-chunk analysis of the risk-assessment script: for every chunk,
    in order, three prompts (risks, hidden obligations, recommendations) are
    sent to a text generator and the three answers are stored beside the
    chunk in one record.

    The generator is a parameter `generate` that maps a prompt to the text
    it produces; which model it runs, its output cap of 512 tokens and its
    greedy decoding are all folded into that one function. */
module Analyzer {
  import opened Chunker

  /** The instruction put in front of the chunk for each of the three prompts. */
  const RisksInstruction: string :=
    "Carefully analyze the following text for **potential risks**. "
    + "Provide a thorough and detailed explanation of these risks, "
    + "highlighting any concerns that may not be immediately obvious:\n\n"
  const ObligationsInstruction: string :=
    "Identify any **hidden obligations** or **dependencies** in the text. "
    + "Be explicit about what these obligations may entail and explain their potential consequences:\n\n"
  const RecommendationsInstruction: string :=
    "Based on the **identified risks** and **hidden obligations** from the text, "
    + "provide **specific and actionable recommendations** for addressing or mitigating these issues. "
    + "Be practical, concise, and prioritize high-impact suggestions:\n\n"

  /** One record of the result list, with the four keys the script uses. */
  datatype AnalysisResult = AnalysisResult(
    context: string,
    risksAnalysis: string,
    obligationsAnalysis: string,
    recommendations: string)

  /** The `context` field of every record, in order. */
  function Contexts(results: seq<AnalysisResult>): seq<string>
  {
    if results == [] then [] else [results[0].context] + Contexts(results[1..])
  }

  /** `analyze_text_for_risks_and_obligations`: one record per chunk, in
      chunk order, holding the chunk and the generator's answers to the
      three prompts built from it. The recommendations prompt is built from
      the chunk alone, not from the other two answers. */
  method AnalyzeTextForRisksAndObligations(chunks: seq<string>, generate: string -> string)
    returns (results: seq<AnalysisResult>)
    ensures |results| == |chunks|
    ensures forall i :: 0 <= i < |chunks| ==>
      && results[i].context == chunks[i]
      && results[i].risksAnalysis == generate(RisksInstruction + chunks[i])
      && results[i].obligationsAnalysis == generate(ObligationsInstruction + chunks[i])
      && results[i].recommendations == generate(RecommendationsInstruction + chunks[i])
  {
    results := [];
    for i := 0 to |chunks|
      invariant |results| == i
      invariant forall j :: 0 <= j < i ==>
        && results[j].context == chunks[j]
        && results[j].risksAnalysis == generate(RisksInstruction + chunks[j])
        && results[j].obligationsAnalysis == generate(ObligationsInstruction + chunks[j])
        && results[j].recommendations == generate(RecommendationsInstruction + chunks[j])
    {
      var chunk := chunks[i];
      var risks := generate(RisksInstruction + chunk);
      var obligations := generate(ObligationsInstruction + chunk);
      var recommendations := generate(RecommendationsInstruction + chunk);
      results := results + [AnalysisResult(chunk, risks, obligations, recommendations)];
    }
  }

  /** Records whose contexts are the chunks, one by one, give back the chunk list. */
  lemma {:induction false} ContextsOfRecords(results: seq<AnalysisResult>, chunks: seq<string>)
    requires |results| == |chunks|
    requires forall i :: 0 <= i < |chunks| ==> results[i].context == chunks[i]
    ensures Contexts(results) == chunks
  {
    if results != [] {
      ContextsOfRecords(results[1..], chunks[1..]);
      assert chunks == [chunks[0]] + chunks[1..];
    }
  }

  /** The chunk-then-analyse part of `main`, with the default chunk sizes:
      it raises exactly for a non-empty document of at most 700 characters;
      otherwise the records' contexts are the chunks, which join back to the
      document and have the chunker's shape, and every record holds the
      generator's answers to the three prompts built from its context. */
  method RunAnalysis(document: string, generate: string -> string)
    returns (r: Result<seq<AnalysisResult>>)
    ensures r.Failure? <==> 0 < |document| <= DefaultMinChunkSize
    ensures r.Success? ==>
      WellChunked(document, DefaultMaxChunkSize, DefaultMinChunkSize, Contexts(r.value))
    ensures r.Success? ==> forall i :: 0 <= i < |r.value| ==>
      && r.value[i].risksAnalysis == generate(RisksInstruction + r.value[i].context)
      && r.value[i].obligationsAnalysis == generate(ObligationsInstruction + r.value[i].context)
      && r.value[i].recommendations == generate(RecommendationsInstruction + r.value[i].context)
  {
    var chunked := LoadAndPreprocess(document);
    SplitFailsIff(document, DefaultMaxChunkSize, DefaultMinChunkSize);
    match chunked
    case Failure(e) =>
      r := Failure(e);
    case Success(chunks) =>
      SplitWellChunked(document, DefaultMaxChunkSize, DefaultMinChunkSize);
      var results := AnalyzeTextForRisksAndObligations(chunks, generate);
      ContextsOfRecords(results, chunks);
      r := Success(results);
  }
}
