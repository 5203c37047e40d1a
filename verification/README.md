# quickcontractai: the analysis core in Dafny

quickcontractai is a Next.js service. A signed-in user submits a contract's text, spends one credit, and gets a language-model review with a score and a risk tier. The review is stored and can be exported as a PDF. This project models the deterministic logic of that flow and proves properties of it.

- **Score extraction** (`ScoreExtraction`, `Patterns`, `Text`). `extractScore` tries four regular expressions in a fixed order and takes the first leftmost match whose capture is in [0, 100]. If none qualifies, it falls back to a keyword heuristic: start at 75, subtract 15, subtract 7 or add 5 for each listed phrase present, then clamp. `determineRiskLevel` turns the score into a tier.
  - The regular expressions are modelled as token lists (a literal, `\s*`, `\d+`).
  - A greedy matcher is proved to return exactly the match JavaScript reports. That match is the leftmost start, and at that start the decomposition backtracking prefers.
- **Content cleaning** (`ContentCleaning`). This is the chain `replace(/\s+/g, ' ').replace(/\n\s*\n/g, '\n').trim()` applied to the document before it is sent. `\s` and `trim()` use the ECMAScript whitespace and line-terminator set (`Text.IsWs`).
- **Model registry** (`ModelRegistry`). This covers the `models` object, `getAvailableModels`, and the expression that resolves a requested model identifier.
- **The analysis call** (`ContractAnalysis`). This is the request `analyzeContract` builds and what it makes of the provider's reply. The reply itself is a parameter.
- **The `POST /api/analyze` handler** (`AnalyzeRoute`). It is a state machine, one stage per step: session, credits, form, analysis, document insert, credit update. Every external outcome comes from an `Environment`. The machine records each external call in order, the row it persisted, and the credit value it wrote.
- **The PDF report lines** (`ReportFormat`). This is `formatAnalysisContent`: it deletes decoration characters, splits on newlines, drops blank lines, and turns section-header lines into bare titles.

Two points where the code differs from what one might read into it:

- **Fallback heuristic.** It adds one penalty or bonus for each distinct phrase of a list that occurs, up to four per list. This is not one indicator per list; the model follows the loops at analyzeContract.ts:281-289.
- **Model lookup.** `models[modelType] || default` is not a plain own-property lookup; see Findings.

Extraction is deterministic by construction: `ContractAnalysis.Extract` is a function of the reply text alone.

## Model

| member | source | states |
|---|---|---|
| ScoreExtraction.ExtractScorePrecedence | src/lib/analyzeContract.ts:254-269 | the score is the capture of the first pattern, in source order, whose leftmost match captures a value in [0, 100]; when no pattern does, the score is the keyword heuristic's |
| ScoreExtraction.Ladder | src/lib/analyzeContract.ts:261-269 | the loop yields nothing exactly when no pattern's capture is accepted, and otherwise the capture of a first accepted pattern |
| ScoreExtraction.ExtractScoreAt | src/lib/analyzeContract.ts:261-267 | if pattern k captures n in [0, 100] and no earlier pattern matches at all, the score is n |
| ScoreExtraction.ScoreLabelAtStart | src/lib/analyzeContract.ts:261-267 | for text opening with `score:`, optional whitespace and digits, the first pattern captures those digits; a value over 100 abandons the first pattern and leaves the decision to the remaining patterns or the heuristic, with later `score:` labels never searched |
| ScoreExtraction.LabelExample | src/lib/analyzeContract.ts:253-255 | "score: 85" scores 85 |
| ScoreExtraction.RatingExample | src/lib/analyzeContract.ts:253-256 | "rating: 72/100" scores 72 |
| ScoreExtraction.BracketExample | src/lib/analyzeContract.ts:253-257 | "score [85]" scores 85; the first two patterns do not match it |
| ScoreExtraction.CandidateIsJsCapture | src/lib/analyzeContract.ts:262-264 | for each pattern the modelled candidate is the integer in the capture group of the one match `String.prototype.match` reports, that match is unique, and there is no candidate exactly when the pattern matches nowhere |
| Patterns.FirstMatchIsRegexMatch | src/lib/analyzeContract.ts:262 | for a token list in which no quantifier has to give characters back, the greedy scan returns the leftmost match with the decomposition backtracking prefers, and nothing exactly when no start position matches |
| ScoreExtraction.ScorePatternsWellFormed | src/lib/analyzeContract.ts:254-259 | each of the four patterns is one in which the greedy scan is exact |
| ScoreExtraction.ExtractScore | src/lib/analyzeContract.ts:252-293 | the score is always an integer in [0, 100] |
| ScoreExtraction.FallbackScore | src/lib/analyzeContract.ts:272-292 | the keyword heuristic always yields an integer in [0, 100]; its closed form is FallbackFormula |
| ScoreExtraction.FallbackFormula | src/lib/analyzeContract.ts:272-292 | the heuristic equals clamp(75 - 15h - 7m + 5l) with h, m, l the numbers of distinct phrases of each list present in the lower-cased text, each at most 4; the unclamped value lies in [-13, 95], so only the lower clamp can act |
| ScoreExtraction.ApplyPhrasesCounts | src/lib/analyzeContract.ts:281-289 | one keyword loop adds its delta once per distinct phrase present, however often the phrase occurs |
| ScoreExtraction.FallbackDependsOnPresenceOnly | src/lib/analyzeContract.ts:278-292 | two texts that contain the same listed phrases, in any case, number or position, get the same heuristic score |
| ScoreExtraction.Clamp | src/lib/analyzeContract.ts:292 | the clamped value lies in [0, 100]: it equals its input when that is already in range, is 0 for a negative input and 100 for an input above 100 |
| ScoreExtraction.DetermineRiskLevel | src/lib/analyzeContract.ts:295-300 | for a score in [0, 100] the tier's band contains the score |
| ScoreExtraction.RiskLevelIsBand | src/lib/analyzeContract.ts:295-300 | a score in [0, 100] gets a tier exactly when it lies in that tier's band (0-40 high, 41-70 medium, 71-100 low), whatever the analysis text |
| ScoreExtraction.RiskLevelMonotone | src/lib/analyzeContract.ts:295-300 | a higher score never gets a riskier tier, whatever the two texts |
| ContentCleaning.CollapseWs | src/lib/analyzeContract.ts:145 | the result has no newline and no whitespace run longer than one space, keeps every non-whitespace character in order, is empty only for empty input, and starts with whitespace exactly when the input does |
| ContentCleaning.CollapseWords | src/lib/analyzeContract.ts:145 | each whitespace run becomes exactly one space: the result is the input's words (maximal non-whitespace runs) joined by single spaces, plus one space in front when the input starts with whitespace and one behind when it ends with whitespace after a word |
| ContentCleaning.DropBlankLines | src/lib/analyzeContract.ts:146 | the blank-line replacement removes only whitespace: the non-whitespace characters stay, in order, and the text never grows; afterwards no two newlines are separated by whitespace alone, so the pattern matches nowhere |
| ContentCleaning.DropBlankLinesNone | src/lib/analyzeContract.ts:146 | text in which the pattern matches nowhere is left unchanged |
| ContentCleaning.DropBlankLinesIdempotent | src/lib/analyzeContract.ts:146 | replacing blank lines a second time changes nothing |
| ContentCleaning.DropBlankLinesStep | src/lib/analyzeContract.ts:146 | a newline, a whitespace run and a second newline are replaced exactly as the second newline alone would be: the match runs to the last newline of the run |
| ContentCleaning.BlankLineReplaceIsNoOp | src/lib/analyzeContract.ts:145-146 | the blank-line replacement never changes the output of the first replacement |
| ContentCleaning.Trim | src/lib/analyzeContract.ts:147 | the trimmed string neither starts nor ends with whitespace |
| ContentCleaning.TrimSlice | src/lib/analyzeContract.ts:147 | the trimmed string is a slice of the input with only whitespace before and after it |
| ContentCleaning.TrimAround | src/lib/analyzeContract.ts:147 | trimming a string that neither starts nor ends with whitespace, wrapped in whitespace on both sides, gives back exactly that string |
| ContentCleaning.TrimSingleSpaced | src/lib/analyzeContract.ts:147 | trimming single-spaced text gives normalized text with the same non-whitespace characters |
| ContentCleaning.CleanContent | src/lib/analyzeContract.ts:144-147 | cleaned text is the input's words joined by single spaces; so it is single-spaced, newline-free and trimmed, and has exactly the input's non-whitespace characters in order |
| ContentCleaning.CleanStepsJoinWords | src/lib/analyzeContract.ts:144-147 | the three steps together give the words joined by single spaces: no word is dropped or glued to its neighbour, and no space is left at the ends |
| ContentCleaning.CleanContentExample | src/lib/analyzeContract.ts:145 | "a  b" is cleaned to "a b" |
| ContentCleaning.CleanContentShape | src/lib/analyzeContract.ts:144-147 | cleaned text contains no newline and no two consecutive spaces |
| ContentCleaning.CleanContentIdempotent | src/lib/analyzeContract.ts:144-147 | cleaning leaves already-normalized text unchanged, so cleaning twice equals cleaning once |
| ContractAnalysis.BuildRequest | src/lib/analyzeContract.ts:144-172 | the request carries max_tokens 2000, the model resolved from the registry's own properties, and the user message "Analyze:\n" followed by the document's words joined by single spaces |
| ContractAnalysis.RequestSingleLine | src/lib/analyzeContract.ts:144-167 | the only newline in the user message is the one after "Analyze:" |
| ContractAnalysis.Extract | src/lib/analyzeContract.ts:195-201 | the result keeps the reply text, its score is extractScore of that text (so at most 100), and its tier is the one whose band contains the score |
| ContractAnalysis.AnalyzeContract | src/lib/analyzeContract.ts:177-212 | a reply yields a result exactly when it carries non-empty completion text, and the result is what Extract derives from that text; an aborted request fails with the "took too long" message, an HTTP error with "OpenRouter API error: " and the status text, a reply without content with "Invalid response from OpenRouter API", and any other failure with its own message |
| ModelRegistry.ModelsContents | src/lib/models.ts:2-13 | the registry has exactly one entry, geminiPro mapped to "google/gemini-2.0-pro-exp-02-05:free", and the list offered is that one entry |
| ModelRegistry.GetAvailableModels | src/lib/models.ts:9-13 | with the shipped registry the list is the single element { id: "geminiPro", name: "google/gemini-2.0-pro-exp-02-05:free" } |
| ModelRegistry.AvailableModels | src/lib/models.ts:9-13 | one element per registry entry in entry order; each id is a key and each name is that key's value; ids are pairwise distinct; an identifier is offered exactly when it is a key |
| ModelRegistry.ResolveMatchesAvailable | src/lib/analyzeContract.ts:159 | every offered identifier resolves to the name shown beside it, and an identifier that is not offered resolves to the Llama default |
| ModelRegistry.ResolveModel | src/lib/analyzeContract.ts:159 | own-property resolution (the corrected lookup): a key with a non-empty model string resolves to it, a name that is no key to the Llama default, and nothing else is ever returned |
| ModelRegistry.ResolveShippedRegistry | src/lib/analyzeContract.ts:159 | own-property resolution with the shipped registry: "geminiPro" resolves to its Gemini model and every other identifier to "meta-llama/llama-3.3-70b-instruct:free" |
| ModelRegistry.ResolveAsWrittenAgrees | src/lib/analyzeContract.ts:159 | the expression as written agrees with own-property resolution for every identifier that is not an Object.prototype property name |
| ModelRegistry.ResolveAsWrittenInherited | src/lib/analyzeContract.ts:159 | as written, "constructor" yields the inherited function and not the default model string |
| AnalyzeRoute.Post | src/app/api/analyze/route.ts:7-99 | the handler always answers, with status 200, 400, 401, 403, 404 or 500; its first call is the session lookup, it makes at most six calls, and it never writes a credit value without having saved a document |
| AnalyzeRoute.NonTextModelGetsDefault | src/lib/analyzeContract.ts:159 | a missing model field (null, key "null") or a file in its place (key "[object File]") names neither a registered model nor an inherited property, so it gets the Llama default, also with the lookup as written |
| AnalyzeRoute.PostUnauthorized | src/app/api/analyze/route.ts:10-14 | without a session the answer is 401 after only the session lookup; nothing is stored or written |
| AnalyzeRoute.PostUserNotFound | src/app/api/analyze/route.ts:17-25 | a missing user row or a read error gives 404 after the session lookup and the credit read only |
| AnalyzeRoute.PostNoCredits | src/app/api/analyze/route.ts:27-31 | credits of 0 or less give 403 before the form is read |
| AnalyzeRoute.ReachesForm | src/app/api/analyze/route.ts:17-33 | a user with credits left has the form read, right after the session lookup and the credit read |
| AnalyzeRoute.PostFormError | src/app/api/analyze/route.ts:93-98 | when `request.formData()` throws, the outer handler answers 500 "Internal Server Error" after the three reads, with nothing stored or written |
| AnalyzeRoute.PostNoContent | src/app/api/analyze/route.ts:33-40 | missing or empty content gives 400 after the three reads, with no analysis |
| AnalyzeRoute.PostFileContent | src/app/api/analyze/route.ts:34-51 | content that is a file makes the analysis throw before any provider call: 500 "Failed to analyze contract. Please try again." |
| AnalyzeRoute.PostAnalysisFailed | src/app/api/analyze/route.ts:42-51 | a failed analysis gives 500 after the provider call, with no insert and no credit change |
| AnalyzeRoute.PostInsertFailed | src/app/api/analyze/route.ts:54-70 | a failed insert gives 500 "Failed to save analysis results" and the credit update is never issued |
| AnalyzeRoute.PostUpdateFailed | src/app/api/analyze/route.ts:72-90 | a failed credit update after a saved document gives 500; the document stays saved and no credit value is written |
| AnalyzeRoute.PostSucceeded | src/app/api/analyze/route.ts:54-84 | full success answers 200 with the new document's id and credits - 1, which is at least 0; exactly that credit value is written, after the insert |
| AnalyzeRoute.StoredRowContents | src/app/api/analyze/route.ts:56-68 | an analysed request saves a row exactly when the insert succeeds; the row has status "completed", copies analysis, risk level and score unchanged (the score being extractScore of the stored analysis), and records filename and model as submitted, not the resolved provider string |
| AnalyzeRoute.StoredOnlyAfterAnalysis | src/app/api/analyze/route.ts:42-70 | a document is saved only for a request that passed every guard and whose analysis succeeded |
| AnalyzeRoute.NoCreditNoWork | src/app/api/analyze/route.ts:17-31 | without a credit row holding credits left: at most two calls, no form read, no provider call, nothing stored or written, and the status is 401, 403 or 404 |
| AnalyzeRoute.GuardExit | src/app/api/analyze/route.ts:12-40 | a request that fails a guard is answered after at most the three reads, with status 400, 401, 403, 404 or 500 and nothing stored or written |
| AnalyzeRoute.SucceedsIff | src/app/api/analyze/route.ts:27-84 | the status is 200 exactly when every guard, the analysis, the insert and the update succeed; a credit value is written exactly then, and it is the read credits minus one, never negative |
| AnalyzeRoute.CallsAfterGuards | src/app/api/analyze/route.ts:42-84 | past the guards the calls are the three reads and the provider call, then at most the insert followed by the credit update, with no second provider call |
| AnalyzeRoute.ChargeOnlyAfterSave | src/app/api/analyze/route.ts:54-78 | in every run, each credit update directly follows a document insert that succeeded |
| AnalyzeRoute.ProviderOnlyWithCredit | src/app/api/analyze/route.ts:12-45 | the provider is called only for a signed-in user with credits left, as the fourth call, after session, credits and form in that order |
| ReportFormat.Without | src/components/ReportPDF.tsx:83-84 | a removal pass leaves none of its characters and never lengthens the text |
| ReportFormat.StripCharsOnePass | src/components/ReportPDF.tsx:83-84 | the two passes together delete exactly the characters `= Ê , < ¯ 🔍 📋 *` and keep all others in order |
| ReportFormat.StripCharsAround | src/components/ReportPDF.tsx:83-85 | stripping commutes with joining two pieces at a newline |
| ReportFormat.SplitLines | src/components/ReportPDF.tsx:85 | splitting yields at least one segment, and no segment contains a newline |
| ReportFormat.JoinSplitLines | src/components/ReportPDF.tsx:85 | joining the segments with newlines gives back the string |
| ReportFormat.SplitLinesJoin | src/components/ReportPDF.tsx:85 | splitting the join of newline-free lines gives back those lines |
| ReportFormat.KeptIff | src/components/ReportPDF.tsx:86 | a line passes the filter exactly when it has a character other than whitespace |
| ReportFormat.KeepNonBlankIndices | src/components/ReportPDF.tsx:86 | the filter keeps every non-blank line and only those, in their original order |
| ReportFormat.HeaderLineTitles | src/components/ReportPDF.tsx:87-99 | a line becomes EXECUTIVE SUMMARY exactly when it contains it, DETAILED ANALYSIS exactly when it contains that but not the first, FINAL VERDICT exactly when it contains only that one of the three, and otherwise stays unchanged |
| ReportFormat.HeaderLineIdempotent | src/components/ReportPDF.tsx:87-99 | mapping headers twice equals mapping them once |
| ReportFormat.FormatAnalysisContent | src/components/ReportPDF.tsx:81-100 | every output line has non-empty trimmed content, no newline, none of the removed characters, and is its own header form; there are never more lines than newline-separated segments |
| ReportFormat.FormatKeepsOrder | src/components/ReportPDF.tsx:81-100 | the output is the header form of each non-blank segment of the stripped text, all of them, in their original order; other lines are kept verbatim and untrimmed |
| ReportFormat.FormatAround | src/components/ReportPDF.tsx:81-100 | formatting text joined at a newline is formatting each side and concatenating |
| ReportFormat.FormatIdempotent | src/components/ReportPDF.tsx:81-100 | printing the lines one per line and formatting again returns the same lines |

## Left out

- The provider transport is an abstract `ProviderReply` parameter: `fetchWithTimeout`, the 25-second timer, the request headers and the URL are not modelled. `ChatRequest` keeps only the model, the user message and `max_tokens`. The system prompt text and `temperature: 0.7` are fixed values that the model does not carry.
- `extractTextFromFile`, `extractFromPDF` and `extractFromDOCX` are not modelled. They are wrappers over pdfjs and mammoth, and the route receives already-extracted text.
- Concurrency is out of scope: one request is modelled at a time. The credit read and the credit update are separate round trips, so two concurrent requests can both pass the credit check.
- Console logging and the Supabase client construction are not modelled. They produce no observable result.
- The Stripe webhook, checkout and subscription routes, the React components and the PDF rendering are not part of this model.
- Strings are sequences of Unicode scalar values, not UTF-16 code units. Lone surrogates are not representable, and each emoji of the second `replace` is one character.
- Text.JsLower: the mapping is exact only where the lower-cased character is ASCII: 'A'-'Z' and the Kelvin sign. Every other character maps to itself. No listed phrase can match a character whose true lower case is non-ASCII or longer than one code unit, so keyword matching is unaffected.
- `Object.entries` key order is insertion order here. That is because no key of `models` is an array index.
- ContractAnalysis.AnalyzeContract: an error reply whose body is not JSON makes `response.json()` throw a parse error instead of the "OpenRouter API error" message. The handler answers both with the same 500, so the model keeps only the API-error case.
- ContractAnalysis.AnalyzeContract: `ProviderReply.Completion` carries a string, so a reply whose `message.content` is truthy but not a string (a number, an array of parts) is not representable. Such a reply passes the check at analyzeContract.ts:190-193, `analysis.match` then throws inside `extractScore` (line 262, called at line 196), and the error is rethrown; the route answers with the same 500 as `AnalysisFailed`.
- AnalyzeRoute.PostFileContent: a file in the `content` field makes `content.replace` throw inside `analyzeContract`. It is modelled as a failed analysis without a provider call; the exception's message is not modelled.
- ContractAnalysis.BuildRequest: the model string it sends is the own-property resolution `ModelRegistry.ResolveModel`, the corrected form of line 159. For a model field that names an Object.prototype property the code as written sends no model string at all; that case appears only under Findings (`ModelRegistry.ResolveAsWrittenInherited`), and the route's recorded provider call does not reproduce it.
- `.single()` errors for zero or several rows are modelled as one read failure. Both give 404.
- Rejected promises from `getSession` and the user read are not modelled. The model takes their `{ data, error }` results only. A rejection there would reach the outer catch at route.ts:93-98 and give 500 "Internal Server Error". Only the form read is modelled as reaching that catch.
- The document insert and its `.select().single()` are one call. An insert that succeeds while the row read-back fails is the same as a failed insert: 500 "Failed to save analysis results", with no credit update. The model does not record that a row may still have been stored.

## Findings

| source | as written | input that shows it | evidently intended | confidence | as-written member | corrected member |
|---|---|---|---|---|---|---|
| src/lib/analyzeContract.ts:159 | `models[modelType as ModelType] \|\| default`. The cast has no run-time effect, so the lookup also finds properties inherited from Object.prototype. | model field "constructor" (or "toString", "__proto__", ...): the lookup yields an inherited function or object (Object.prototype itself for "__proto__"), which is truthy, so the request body carries no model string instead of the default | an identifier that is not a registered model resolves to "meta-llama/llama-3.3-70b-instruct:free" | not executed | ModelRegistry.ResolveAsWrittenInherited | ModelRegistry.ResolveMatchesAvailable |

The rest of the model resolves identifiers with `ModelRegistry.ResolveModel`, which reads own properties only; `ContractAnalysis.BuildRequest` uses it.
