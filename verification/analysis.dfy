/**
 * `analyzeContract` (src/lib/analyzeContract.ts:138-214) with the network call abstracted:
 * the provider's reply is a parameter. What the function builds and what it does with the
 * reply are modelled; the transport is not.
 */
module ContractAnalysis {
  import opened Wrappers
  import opened Text
  import opened ScoreExtraction
  import opened ContentCleaning
  import opened ModelRegistry

  const MaxTokens: nat := 2000

  /** The parts of the chat-completions request body that depend on the input. */
  datatype ChatRequest = ChatRequest(model: string, userMessage: string, maxTokens: nat)

  /** How the request to the provider ended, as `analyzeContract` observes it. */
  datatype ProviderReply =
    | Completion(content: string)    // choices[0].message.content of a successful reply
    | MissingContent                 // a successful reply without that field
    | HttpError(statusText: string)  // `response.ok` is false
    | Aborted                        // the 25-second timer aborted the request
    | NetworkError(message: string)  // `fetch` rejected for another reason

  /** `AnalysisResult`: the raw reply and what was extracted from it. */
  datatype AnalysisResult = AnalysisResult(analysis: string, riskLevel: RiskLevel, score: nat)

  const TimeoutMessage: string :=
    "Analysis took too long. Please try with a shorter document or contact support."
  const InvalidResponseMessage: string := "Invalid response from OpenRouter API"
  const ApiErrorPrefix: string := "OpenRouter API error: "

  /** The request `analyzeContract` sends for a document and a requested model. */
  function BuildRequest(content: string, modelId: string): (req: ChatRequest)
    ensures req.maxTokens == MaxTokens
    ensures req.model == ResolveModel(Models, modelId)
    ensures |req.userMessage| >= 9 && req.userMessage[..9] == "Analyze:\n"
    ensures req.userMessage[9..] == JoinWords(Words(content))
    ensures Normalized(req.userMessage[9..])
    ensures Visible(req.userMessage[9..]) == Visible(content)
  {
    var msg := "Analyze:\n" + CleanContent(content);
    assert msg[9..] == CleanContent(content);
    ChatRequest(ResolveModel(Models, modelId), msg, MaxTokens)
  }

  /** The document reaches the provider on a single line: the only newline of the user
      message is the one after "Analyze:". */
  lemma RequestSingleLine(content: string, modelId: string)
    ensures var m := BuildRequest(content, modelId).userMessage;
      forall k :: 0 <= k < |m| && m[k] == '\n' ==> k == 8
  {
    var m := BuildRequest(content, modelId).userMessage;
    OneLineAfterHeader(m);
  }

  /** A message made of "Analyze:\n" and a single-spaced text has one newline, at index 8. */
  lemma OneLineAfterHeader(m: string)
    requires |m| >= 9 && m[..9] == "Analyze:\n" && SingleSpaced(m[9..])
    ensures forall k :: 0 <= k < |m| && m[k] == '\n' ==> k == 8
  {
    SingleSpacedShape(m[9..]);
    forall k | 9 <= k < |m| ensures m[k] != '\n' {
      assert m[k] == m[9..][k - 9];
    }
    forall k | 0 <= k < 8 ensures m[k] != '\n' {
      assert m[k] == m[..9][k];
    }
  }

  /** The score and risk level derived from a reply text: the score is the pattern ladder's
      (with its keyword fallback), and the tier is the band that score falls in. */
  function Extract(analysis: string): (r: AnalysisResult)
    ensures r.analysis == analysis && r.score <= 100
    ensures r.score == ExtractScore(analysis)
    ensures r.riskLevel == DetermineRiskLevel(analysis, r.score)
    ensures BandLow(r.riskLevel) <= r.score <= BandHigh(r.riskLevel)
  {
    var score := ExtractScore(analysis);
    AnalysisResult(analysis, DetermineRiskLevel(analysis, score), score)
  }

  /** The errors `analyzeContract` throws. */
  datatype AnalysisError =
    | Timeout                    // the abort is reported with its own message
    | ApiError(statusText: string)
    | InvalidResponse
    | Rethrown(message: string)  // any other failure, passed on unchanged

  function ErrorMessage(e: AnalysisError): string {
    match e
    case Timeout => TimeoutMessage
    case ApiError(statusText) => ApiErrorPrefix + statusText
    case InvalidResponse => InvalidResponseMessage
    case Rethrown(message) => message
  }

  /** `analyzeContract(content, modelType)` given the provider's reply. A reply yields a
      result exactly when it carries a non-empty completion; the result keeps that text and
      its score and risk level are derived from it alone. Each failure is reported with the
      message the source throws. */
  function AnalyzeContract(content: string, modelId: string, reply: ProviderReply)
    : (r: Result<AnalysisResult, AnalysisError>)
    ensures r.Ok? <==> reply.Completion? && reply.content != ""
    ensures r.Ok? ==> r.value == Extract(reply.content)
    ensures r.Ok? ==> r.value.analysis == reply.content && r.value.score <= 100
    ensures r.Ok? ==> r.value.riskLevel == DetermineRiskLevel(r.value.analysis, r.value.score)
    ensures r.Err? ==> (r.error == Timeout <==> reply.Aborted?)
    ensures reply.Aborted? ==> r.Err? && ErrorMessage(r.error) == TimeoutMessage
    ensures reply.HttpError? ==>
              r.Err? && ErrorMessage(r.error) == ApiErrorPrefix + reply.statusText
    ensures reply.MissingContent? || reply == Completion("") ==>
              r.Err? && ErrorMessage(r.error) == InvalidResponseMessage
    ensures reply.NetworkError? ==> r.Err? && ErrorMessage(r.error) == reply.message
  {
    match reply
    case Completion(text) => if text == "" then Err(InvalidResponse) else Ok(Extract(text))
    case MissingContent => Err(InvalidResponse)
    case HttpError(statusText) => Err(ApiError(statusText))
    case Aborted => Err(Timeout)
    case NetworkError(message) => Err(Rethrown(message))
  }
}
