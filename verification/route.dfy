/**
 * `POST /api/analyze` (src/app/api/analyze/route.ts) as a state machine. Every external step
 * (session lookup, credit read, form parsing, the provider call, the document insert, the
 * credit update) is an outcome drawn from an `Environment`; the machine records each call it
 * makes, the document row that was persisted and the credit value that was written.
 */
module AnalyzeRoute {
  import opened Wrappers
  import opened ScoreExtraction
  import opened ContractAnalysis
  import opened ModelRegistry

  /** A form field as `formData.get(name)` returns it: null, a string or a file. */
  datatype FormValue = Absent | Text(s: string) | Blob

  datatype Form = Form(content: FormValue, filename: FormValue, model: FormValue)

  /** The outcome of reading the user's credits (`select('credits') ... .single()`). */
  datatype UserRead = Row(credits: int) | NoRow | ReadError

  /** What each external step yields for one request. */
  datatype Environment = Environment(
    session: Option<string>,  // the signed-in user's id
    user: UserRead,
    form: Option<Form>,       // None when `request.formData()` throws
    reply: ProviderReply,
    insert: Option<string>,   // the new document's id when the insert succeeds
    updateOk: bool)           // the credit update succeeds

  /** The row inserted into `documents`. */
  datatype DocumentRow = DocumentRow(
    userId: string,
    filename: FormValue,
    status: string,
    analysisResults: string,
    riskLevel: RiskLevel,
    score: nat,
    modelUsed: FormValue)

  /** The external calls the handler makes, in order. */
  datatype Call =
    | GetSession
    | SelectCredits(userId: string)
    | ReadForm
    | CallProvider(request: ChatRequest)
    | InsertDocument(row: DocumentRow)
    | UpdateCredits(userId: string, credits: int)

  datatype Body = Error(message: string) | Success(documentId: string, remainingCredits: int)

  datatype Response = Response(status: nat, body: Body)

  const Unauthorized := Response(401, Error("Unauthorized"))
  const UserNotFound := Response(404, Error("User not found"))
  const NoCredits := Response(403, Error("No credits remaining. Please upgrade to get more credits."))
  const NoContent := Response(400, Error("No content provided"))
  const AnalysisFailed := Response(500, Error("Failed to analyze contract. Please try again."))
  const SaveFailed := Response(500, Error("Failed to save analysis results"))
  const InternalError := Response(500, Error("Internal Server Error"))

  /** How far the handler has got. */
  datatype Stage =
    | Start
    | Authenticated(userId: string)
    | CreditsChecked(userId: string, credits: int)
    | ContentReady(userId: string, credits: int, form: Form)
    | Analyzed(userId: string, credits: int, form: Form, result: AnalysisResult)
    | Persisted(userId: string, credits: int, documentId: string)
    | Done(response: Response)

  datatype Machine = Machine(
    stage: Stage,
    calls: seq<Call>,
    stored: Option<DocumentRow>,  // the document row that was persisted
    written: Option<int>)         // the credit value that was written

  /** JavaScript truthiness of a form value: null and the empty string are falsy. */
  predicate Present(v: FormValue) {
    match v
    case Absent => false
    case Text(s) => s != ""
    case Blob => true
  }

  /** The property key a form value becomes in `models[model]`. */
  function ModelKey(v: FormValue): string {
    match v
    case Absent => "null"
    case Text(s) => s
    case Blob => "[object File]"
  }

  /** A missing model field or a file in its place becomes a key that names neither a
      registered model nor an inherited property, so it gets the default model, also with
      the lookup as line 159 writes it. */
  lemma NonTextModelGetsDefault(v: FormValue)
    requires !v.Text?
    ensures OwnProperty(Models, ModelKey(v)).None? && ModelKey(v) !in ObjectPrototypeProperties
    ensures ResolveModel(Models, ModelKey(v)) == DefaultModel
    ensures ResolveAsWritten(Models, ModelKey(v)) == JsString(DefaultModel)
  {
    ResolveShippedRegistry(ModelKey(v));
  }

  /** Steps left before the handler answers. */
  function Remaining(s: Stage): nat {
    match s
    case Start => 6
    case Authenticated(_) => 5
    case CreditsChecked(_, _) => 4
    case ContentReady(_, _, _) => 3
    case Analyzed(_, _, _, _) => 2
    case Persisted(_, _, _) => 1
    case Done(_) => 0
  }

  /** The `documents` row saved for an analysed request. */
  function RowFor(uid: string, form: Form, result: AnalysisResult): DocumentRow {
    DocumentRow(uid, form.filename, "completed", result.analysis, result.riskLevel, result.score,
                form.model)
  }

  /** Record an external call. */
  function Record(m: Machine, c: Call): (r: Machine)
    ensures r.calls == m.calls + [c] && r.calls[..|m.calls|] == m.calls
    ensures r.stage == m.stage && r.stored == m.stored && r.written == m.written
  {
    m.(calls := m.calls + [c])
  }

  function Finish(m: Machine, r: Response): Machine {
    m.(stage := Done(r))
  }

  /** Look the session up; without one the answer is 401. */
  function Authenticate(m: Machine, env: Environment): (r: Machine)
    ensures StepOk(m, r) && Remaining(r.stage) <= 5
    ensures SaveBeforeCharge(m) ==> SaveBeforeCharge(r)
  {
    var m := Record(m, GetSession);
    if env.session.None? then Finish(m, Unauthorized)
    else m.(stage := Authenticated(env.session.value))
  }

  /** Read the user's credits: 404 without a row, 403 without credits. */
  function CheckCredits(m: Machine, uid: string, env: Environment): (r: Machine)
    ensures StepOk(m, r) && Remaining(r.stage) <= 4
    ensures SaveBeforeCharge(m) ==> SaveBeforeCharge(r)
  {
    var m := Record(m, SelectCredits(uid));
    if !env.user.Row? then Finish(m, UserNotFound)
    else if env.user.credits <= 0 then Finish(m, NoCredits)
    else m.(stage := CreditsChecked(uid, env.user.credits))
  }

  /** Parse the form: a parse failure reaches the outer catch (500), falsy content is 400. */
  function ReadContent(m: Machine, uid: string, credits: int, env: Environment): (r: Machine)
    ensures StepOk(m, r) && Remaining(r.stage) <= 3
    ensures SaveBeforeCharge(m) ==> SaveBeforeCharge(r)
  {
    var m := Record(m, ReadForm);
    if env.form.None? then Finish(m, InternalError)
    else if !Present(env.form.value.content) then Finish(m, NoContent)
    else m.(stage := ContentReady(uid, credits, env.form.value))
  }

  /** Run the analysis; any exception it throws is answered with 500. */
  function Analyze(m: Machine, uid: string, credits: int, form: Form, env: Environment)
    : (r: Machine)
    ensures StepOk(m, r) && Remaining(r.stage) <= 2
    ensures SaveBeforeCharge(m) ==> SaveBeforeCharge(r)
  {
    // A file where text was expected makes the cleaning step throw before any request
    // (only a file or a non-empty string gets this far).
    if !form.content.Text? then Finish(m, AnalysisFailed)
    else
      var key := ModelKey(form.model);
      var m := Record(m, CallProvider(BuildRequest(form.content.s, key)));
      AfterAnalysis(m, uid, credits, form, AnalyzeContract(form.content.s, key, env.reply))
  }

  /** Move on with the analysis result, or answer 500 when the analysis threw. */
  function AfterAnalysis(m: Machine, uid: string, credits: int, form: Form,
                    outcome: Result<AnalysisResult, AnalysisError>): (r: Machine)
    ensures r.calls == m.calls && r.stored == m.stored && r.written == m.written
    ensures r.stage.Done? ==> KnownStatus(r.stage.response)
    ensures Remaining(r.stage) <= 2 && !r.stage.Persisted?
  {
    if outcome.Err? then Finish(m, AnalysisFailed)
    else m.(stage := Analyzed(uid, credits, form, outcome.value))
  }

  /** Insert the document; a failed insert is answered with 500. */
  function Save(m: Machine, uid: string, credits: int, form: Form, result: AnalysisResult,
                env: Environment): (r: Machine)
    ensures StepOk(m, r) && Remaining(r.stage) <= 1
    ensures SaveBeforeCharge(m) ==> SaveBeforeCharge(r)
  {
    var row := RowFor(uid, form, result);
    var m := Record(m, InsertDocument(row));
    if env.insert.None? then Finish(m, SaveFailed)
    else m.(stage := Persisted(uid, credits, env.insert.value), stored := Some(row))
  }

  /** Spend one credit and answer 200; a failed update is answered with 500. */
  function Charge(m: Machine, uid: string, credits: int, documentId: string, env: Environment)
    : (r: Machine)
    ensures StepOk(m, r) && r.stage.Done?
    ensures m.stage.Persisted? && SaveBeforeCharge(m) ==> SaveBeforeCharge(r)
  {
    var m := Record(m, UpdateCredits(uid, credits - 1));
    if !env.updateOk then Finish(m, SaveFailed)
    else Finish(m.(written := Some(credits - 1)), Response(200, Success(documentId, credits - 1)))
  }

  /** The statuses the handler answers with. */
  predicate KnownStatus(r: Response) {
    r.status in {200, 400, 401, 403, 404, 500}
  }

  /** A credit value is written only once a document is saved, and a request that reached
      the credit update has a saved document. */
  predicate SaveBeforeCharge(m: Machine) {
    && (m.written.Some? ==> m.stored.Some?)
    && (m.stage.Persisted? ==> m.stored.Some?)
  }

  /** A step keeps the calls made so far, adds at most one, and answers with a known
      status if it answers. */
  predicate StepOk(m: Machine, r: Machine) {
    && |r.calls| >= |m.calls| && r.calls[..|m.calls|] == m.calls
    && |r.calls| <= |m.calls| + 1
    && (r.stage.Done? ==> KnownStatus(r.stage.response))
  }

  /** One step of the handler. */
  function Step(m: Machine, env: Environment): (m': Machine)
    requires !m.stage.Done?
    ensures Remaining(m'.stage) < Remaining(m.stage)
    ensures StepOk(m, m')
    ensures SaveBeforeCharge(m) ==> SaveBeforeCharge(m')
  {
    match m.stage
    case Start => Authenticate(m, env)
    case Authenticated(uid) => CheckCredits(m, uid, env)
    case CreditsChecked(uid, credits) => ReadContent(m, uid, credits, env)
    case ContentReady(uid, credits, form) => Analyze(m, uid, credits, form, env)
    case Analyzed(uid, credits, form, result) => Save(m, uid, credits, form, result, env)
    case Persisted(uid, credits, documentId) => Charge(m, uid, credits, documentId, env)
  }

  /** Step until the handler has answered: one call at most per step, earlier calls kept. */
  function Run(m: Machine, env: Environment): (m': Machine)
    requires m.stage.Done? ==> KnownStatus(m.stage.response)
    ensures m'.stage.Done? && KnownStatus(m'.stage.response)
    ensures |m'.calls| >= |m.calls| && m'.calls[..|m.calls|] == m.calls
    ensures |m'.calls| <= |m.calls| + Remaining(m.stage)
    ensures SaveBeforeCharge(m) ==> SaveBeforeCharge(m')
    decreases Remaining(m.stage)
  {
    if m.stage.Done? then m
    else
      var next := Step(m, env);
      var r := Run(next, env);
      assert r.calls[..|m.calls|] == r.calls[..|next.calls|][..|m.calls|];
      r
  }

  const Initial := Machine(Start, [], None, None)

  /** The handler's run for one request. It always answers, with one of six statuses; it
      first looks the session up and makes at most six calls in all; and it never writes a
      credit value without having saved a document. */
  function Post(env: Environment): (r: Machine)
    ensures r.stage.Done? && KnownStatus(r.stage.response)
    ensures 1 <= |r.calls| <= 6 && r.calls[0] == GetSession
    ensures r.written.Some? ==> r.stored.Some?
  {
    var first := Step(Initial, env);
    assert first.calls == [GetSession];
    assert Run(Initial, env) == Run(first, env);
    Run(Initial, env)
  }

  /* ---- The run, one stage at a time ---- */

  lemma RunFromStart(env: Environment)
    ensures Post(env) ==
      if env.session.None? then Machine(Done(Unauthorized), [GetSession], None, None)
      else Run(Machine(Authenticated(env.session.value), [GetSession], None, None), env)
  {
    assert Post(env) == Run(Step(Initial, env), env);
  }

  lemma RunFromAuthenticated(uid: string, calls: seq<Call>, env: Environment)
    ensures Run(Machine(Authenticated(uid), calls, None, None), env) ==
      var calls' := calls + [SelectCredits(uid)];
      if !env.user.Row? then Machine(Done(UserNotFound), calls', None, None)
      else if env.user.credits <= 0 then Machine(Done(NoCredits), calls', None, None)
      else Run(Machine(CreditsChecked(uid, env.user.credits), calls', None, None), env)
  {
    var m := Machine(Authenticated(uid), calls, None, None);
    assert Run(m, env) == Run(Step(m, env), env);
  }

  lemma RunFromCreditsChecked(uid: string, credits: int, calls: seq<Call>, env: Environment)
    ensures Run(Machine(CreditsChecked(uid, credits), calls, None, None), env) ==
      var calls' := calls + [ReadForm];
      if env.form.None? then Machine(Done(InternalError), calls', None, None)
      else if !Present(env.form.value.content) then Machine(Done(NoContent), calls', None, None)
      else Run(Machine(ContentReady(uid, credits, env.form.value), calls', None, None), env)
  {
    var m := Machine(CreditsChecked(uid, credits), calls, None, None);
    assert Run(m, env) == Run(Step(m, env), env);
  }

  lemma RunFromContentReady(uid: string, credits: int, form: Form, calls: seq<Call>,
                            env: Environment)
    ensures Run(Machine(ContentReady(uid, credits, form), calls, None, None), env) ==
      if !form.content.Text? then Machine(Done(AnalysisFailed), calls, None, None)
      else
        var key := ModelKey(form.model);
        var calls' := calls + [CallProvider(BuildRequest(form.content.s, key))];
        var outcome := AnalyzeContract(form.content.s, key, env.reply);
        if outcome.Err? then Machine(Done(AnalysisFailed), calls', None, None)
        else Run(Machine(Analyzed(uid, credits, form, outcome.value), calls', None, None), env)
  {
    var m := Machine(ContentReady(uid, credits, form), calls, None, None);
    assert Run(m, env) == Run(Step(m, env), env);
  }

  lemma RunFromAnalyzed(uid: string, credits: int, form: Form, result: AnalysisResult,
                        calls: seq<Call>, env: Environment)
    ensures var row := RowFor(uid, form, result);
            var saved := calls + [InsertDocument(row)];
            var charged := calls + [InsertDocument(row), UpdateCredits(uid, credits - 1)];
            Run(Machine(Analyzed(uid, credits, form, result), calls, None, None), env) ==
              if env.insert.None? then Machine(Done(SaveFailed), saved, None, None)
              else if !env.updateOk then Machine(Done(SaveFailed), charged, Some(row), None)
              else Machine(Done(Response(200, Success(env.insert.value, credits - 1))),
                           charged, Some(row), Some(credits - 1))
  {
    var m := Machine(Analyzed(uid, credits, form, result), calls, None, None);
    var m5 := Step(m, env);
    assert Run(m, env) == Run(m5, env);
    if env.insert.Some? {
      assert Run(m5, env) == Step(m5, env);
      var row := RowFor(uid, form, result);
      assert calls + [InsertDocument(row)] + [UpdateCredits(uid, credits - 1)]
          == calls + [InsertDocument(row), UpdateCredits(uid, credits - 1)];
    }
  }

  /* ---- The handler's outcomes, one lemma per exit ---- */

  /** Without a session the handler answers 401 after looking the session up, and nothing
      else happens. */
  lemma {:induction false} PostUnauthorized(env: Environment)
    requires env.session.None?
    ensures Post(env) == Machine(Done(Unauthorized), [GetSession], None, None)
  {
    RunFromStart(env);
  }

  /** A user whose row cannot be read gets 404; the form is never read. */
  lemma {:induction false} PostUserNotFound(env: Environment)
    requires env.session.Some? && !env.user.Row?
    ensures Post(env) == Machine(Done(UserNotFound),
                                 [GetSession, SelectCredits(env.session.value)], None, None)
  {
    RunFromStart(env);
    RunFromAuthenticated(env.session.value, [GetSession], env);
    assert [GetSession] + [SelectCredits(env.session.value)]
        == [GetSession, SelectCredits(env.session.value)];
  }

  /** A user with no credits left gets 403; the form is never read and the provider never
      called. */
  lemma {:induction false} PostNoCredits(env: Environment)
    requires env.session.Some? && env.user.Row? && env.user.credits <= 0
    ensures Post(env) == Machine(Done(NoCredits),
                                 [GetSession, SelectCredits(env.session.value)], None, None)
  {
    RunFromStart(env);
    RunFromAuthenticated(env.session.value, [GetSession], env);
    assert [GetSession] + [SelectCredits(env.session.value)]
        == [GetSession, SelectCredits(env.session.value)];
  }

  /** The calls made by a request that gets past the credit check. */
  function GuardCalls(env: Environment): seq<Call>
    requires env.session.Some?
  {
    [GetSession, SelectCredits(env.session.value), ReadForm]
  }

  /** A request that gets past the credit check reaches the form. */
  lemma {:induction false} ReachesForm(env: Environment)
    requires env.session.Some? && env.user.Row? && env.user.credits > 0
    ensures Post(env) ==
      if env.form.None? then Machine(Done(InternalError), GuardCalls(env), None, None)
      else if !Present(env.form.value.content) then
        Machine(Done(NoContent), GuardCalls(env), None, None)
      else Run(Machine(ContentReady(env.session.value, env.user.credits, env.form.value),
                       GuardCalls(env), None, None), env)
  {
    var uid := env.session.value;
    ReachesCreditCheck(env);
    RunFromCreditsChecked(uid, env.user.credits, [GetSession, SelectCredits(uid)], env);
    assert [GetSession, SelectCredits(uid)] + [ReadForm] == GuardCalls(env);
  }

  /** A signed-in user with credits left gets past the credit check after two calls. */
  lemma ReachesCreditCheck(env: Environment)
    requires env.session.Some? && env.user.Row? && env.user.credits > 0
    ensures var uid := env.session.value;
      Post(env) == Run(Machine(CreditsChecked(uid, env.user.credits),
                               [GetSession, SelectCredits(uid)], None, None), env)
  {
    var uid := env.session.value;
    RunFromStart(env);
    RunFromAuthenticated(uid, [GetSession], env);
    assert [GetSession] + [SelectCredits(uid)] == [GetSession, SelectCredits(uid)];
  }

  /** A request with credits whose form cannot be parsed falls through to the outer handler:
      500 "Internal Server Error". */
  lemma {:induction false} PostFormError(env: Environment)
    requires env.session.Some? && env.user.Row? && env.user.credits > 0
    requires env.form.None?
    ensures Post(env) == Machine(Done(InternalError), GuardCalls(env), None, None)
  {
    ReachesForm(env);
  }

  /** Missing or empty content gets 400, after the credit check and before any analysis. */
  lemma {:induction false} PostNoContent(env: Environment)
    requires env.session.Some? && env.user.Row? && env.user.credits > 0
    requires env.form.Some? && !Present(env.form.value.content)
    ensures Post(env) == Machine(Done(NoContent), GuardCalls(env), None, None)
  {
    ReachesForm(env);
  }

  /** Content that is a file, not a string, makes the analysis throw before the provider is
      called: 500, nothing saved, no credit spent. */
  lemma {:induction false} PostFileContent(env: Environment)
    requires env.session.Some? && env.user.Row? && env.user.credits > 0
    requires env.form.Some? && env.form.value.content.Blob?
    ensures Post(env) == Machine(Done(AnalysisFailed), GuardCalls(env), None, None)
  {
    ReachesForm(env);
    RunFromContentReady(env.session.value, env.user.credits, env.form.value, GuardCalls(env), env);
  }

  /** The request passes every guard: signed in, a user row with credits left, a form whose
      content is a non-empty string. */
  predicate PassesGuards(env: Environment) {
    && env.session.Some? && env.user.Row? && env.user.credits > 0
    && env.form.Some? && env.form.value.content.Text? && env.form.value.content.s != ""
  }

  /** The provider request of a request that passed the guards. */
  function RequestOf(env: Environment): ChatRequest
    requires PassesGuards(env)
  {
    BuildRequest(env.form.value.content.s, ModelKey(env.form.value.model))
  }

  /** What `analyzeContract` yields for a request that passed the guards. */
  function AnalysisOf(env: Environment): Result<AnalysisResult, AnalysisError>
    requires PassesGuards(env)
  {
    AnalyzeContract(env.form.value.content.s, ModelKey(env.form.value.model), env.reply)
  }

  /** The calls of a request that reached the provider. */
  function ProviderCalls(env: Environment): seq<Call>
    requires PassesGuards(env)
  {
    GuardCalls(env) + [CallProvider(RequestOf(env))]
  }

  /** The handler's run up to and including the provider call. */
  lemma {:induction false} AfterProvider(env: Environment)
    requires PassesGuards(env)
    ensures Post(env) ==
      if AnalysisOf(env).Err? then Machine(Done(AnalysisFailed), ProviderCalls(env), None, None)
      else Run(Machine(Analyzed(env.session.value, env.user.credits, env.form.value,
                                AnalysisOf(env).value), ProviderCalls(env), None, None), env)
  {
    ReachesForm(env);
    RunFromContentReady(env.session.value, env.user.credits, env.form.value, GuardCalls(env), env);
  }

  /** A failed analysis (timeout, provider error, empty or missing content) gets 500 after
      the provider call: nothing is saved and no credit is spent. */
  lemma {:induction false} PostAnalysisFailed(env: Environment)
    requires PassesGuards(env) && AnalysisOf(env).Err?
    ensures Post(env) == Machine(Done(AnalysisFailed), ProviderCalls(env), None, None)
  {
    AfterProvider(env);
  }

  /** A failed insert gets 500 "Failed to save analysis results"; the credit is not
      touched. */
  lemma {:induction false} PostInsertFailed(env: Environment, result: AnalysisResult)
    requires PassesGuards(env) && AnalysisOf(env) == Ok(result) && env.insert.None?
    ensures var row := RowFor(env.session.value, env.form.value, result);
      Post(env) == Machine(Done(SaveFailed), ProviderCalls(env) + [InsertDocument(row)], None, None)
  {
    AfterProvider(env);
    RunFromAnalyzed(env.session.value, env.user.credits, env.form.value, result,
                    ProviderCalls(env), env);
  }

  /** A failed credit update after a saved document gets 500 as well: the document stays
      saved and the credit is not spent. */
  lemma {:induction false} PostUpdateFailed(env: Environment, result: AnalysisResult)
    requires PassesGuards(env) && AnalysisOf(env) == Ok(result) && env.insert.Some?
    requires !env.updateOk
    ensures var uid, credits := env.session.value, env.user.credits;
      var row := RowFor(uid, env.form.value, result);
      Post(env) == Machine(Done(SaveFailed),
        ProviderCalls(env) + [InsertDocument(row), UpdateCredits(uid, credits - 1)],
        Some(row), None)
  {
    AfterProvider(env);
    RunFromAnalyzed(env.session.value, env.user.credits, env.form.value, result,
                    ProviderCalls(env), env);
  }

  /** A request that passes every step gets 200 with the new document's id and one credit
      fewer; exactly that credit value is written, after the document has been saved. */
  lemma {:induction false} PostSucceeded(env: Environment, result: AnalysisResult)
    requires PassesGuards(env) && AnalysisOf(env) == Ok(result) && env.insert.Some?
    requires env.updateOk
    ensures var uid, credits := env.session.value, env.user.credits;
      var row := RowFor(uid, env.form.value, result);
      Post(env) == Machine(Done(Response(200, Success(env.insert.value, credits - 1))),
        ProviderCalls(env) + [InsertDocument(row), UpdateCredits(uid, credits - 1)],
        Some(row), Some(credits - 1))
    ensures env.user.credits - 1 >= 0
  {
    AfterProvider(env);
    RunFromAnalyzed(env.session.value, env.user.credits, env.form.value, result,
                    ProviderCalls(env), env);
  }

  /** The saved row of an analysed request: it exists exactly when the insert succeeds, has
      status "completed", copies the analysis result unchanged and records the requested
      model field as sent, not the provider string it resolved to. */
  lemma StoredRowContents(env: Environment, result: AnalysisResult)
    requires PassesGuards(env) && AnalysisOf(env) == Ok(result)
    ensures Post(env).stored.Some? <==> env.insert.Some?
    ensures Post(env).stored.Some? ==>
      var row := Post(env).stored.value;
      && row.userId == env.session.value && row.status == "completed"
      && row.analysisResults == result.analysis && row.riskLevel == result.riskLevel
      && row.score == result.score && row.score == ExtractScore(row.analysisResults)
      && row.filename == env.form.value.filename && row.modelUsed == env.form.value.model
  {
    if env.insert.None? {
      PostInsertFailed(env, result);
    } else if env.updateOk {
      PostSucceeded(env, result);
    } else {
      PostUpdateFailed(env, result);
    }
  }

  /* ---- Properties of every run ---- */

  /** Every request the handler fully serves: it passes the guards, the analysis succeeds,
      the document is saved and the credit is spent. */
  predicate Succeeds(env: Environment) {
    PassesGuards(env) && AnalysisOf(env).Ok? && env.insert.Some? && env.updateOk
  }

  /** Each credit update directly follows a document insert that succeeded. */
  predicate ChargeFollowsSave(calls: seq<Call>, env: Environment) {
    forall i :: 0 <= i < |calls| && calls[i].UpdateCredits? ==>
      0 < i && calls[i - 1].InsertDocument? && env.insert.Some?
  }

  /** A request from a user without a credit row with credits left never reaches the form,
      the provider or the database writes: it is answered 401, 403 or 404 after at most two
      calls. */
  lemma {:induction false} NoCreditNoWork(env: Environment)
    requires !(env.user.Row? && env.user.credits > 0)
    ensures var m := Post(env);
      && |m.calls| <= 2 && m.stored.None? && m.written.None?
      && m.stage.response.status in {401, 403, 404}
  {
    if env.session.None? {
      PostUnauthorized(env);
    } else if !env.user.Row? {
      PostUserNotFound(env);
    } else {
      PostNoCredits(env);
    }
  }

  /** The handler answers 200 exactly when the request passes the guards, the analysis
      succeeds, the document is saved and the credit update goes through; a credit value is
      written in exactly those runs, it is one less than the credits read, and it is the
      value reported back. */
  lemma {:induction false} SucceedsIff(env: Environment)
    ensures Post(env).stage.response.status == 200 <==> Succeeds(env)
    ensures Post(env).written.Some? <==> Succeeds(env)
    ensures Succeeds(env) ==>
      && Post(env).stage.response.body == Success(env.insert.value, env.user.credits - 1)
      && Post(env).written == Some(env.user.credits - 1)
      && env.user.credits - 1 >= 0
      && Post(env).stored.Some?
  {
    if env.session.None? {
      PostUnauthorized(env);
    } else if !env.user.Row? {
      PostUserNotFound(env);
    } else if env.user.credits <= 0 {
      PostNoCredits(env);
    } else if env.form.None? {
      PostFormError(env);
    } else if !Present(env.form.value.content) {
      PostNoContent(env);
    } else if env.form.value.content.Blob? {
      PostFileContent(env);
    } else if AnalysisOf(env).Err? {
      PostAnalysisFailed(env);
    } else if env.insert.None? {
      PostInsertFailed(env, AnalysisOf(env).value);
    } else if !env.updateOk {
      PostUpdateFailed(env, AnalysisOf(env).value);
    } else {
      PostSucceeded(env, AnalysisOf(env).value);
    }
  }

  /** Only reads: the session, the credits, the form. */
  predicate ReadsOnly(calls: seq<Call>) {
    forall i :: 0 <= i < |calls| ==> calls[i].GetSession? || calls[i].SelectCredits? || calls[i].ReadForm?
  }

  /** A request that fails a guard is answered after at most the three reads: the provider
      is not called, nothing is saved and no credit is written. */
  lemma {:induction false} GuardExit(env: Environment)
    requires !PassesGuards(env)
    ensures var m := Post(env);
      && |m.calls| <= 3 && ReadsOnly(m.calls) && m.stored.None? && m.written.None?
      && m.stage.response.status in {400, 401, 403, 404, 500}
  {
    if !(env.user.Row? && env.user.credits > 0) {
      NoCreditNoWork(env);
      if env.session.None? {
        PostUnauthorized(env);
      } else if !env.user.Row? {
        PostUserNotFound(env);
      } else {
        PostNoCredits(env);
      }
    } else if env.session.None? {
      PostUnauthorized(env);
    } else if env.form.None? {
      PostFormError(env);
    } else if !Present(env.form.value.content) {
      PostNoContent(env);
    } else {
      PostFileContent(env);
    }
  }

  /** The calls after the provider of a request whose analysis succeeded. */
  lemma CallsAfterAnalysis(env: Environment, result: AnalysisResult) returns (rest: seq<Call>)
    requires PassesGuards(env) && AnalysisOf(env) == Ok(result)
    ensures Post(env).calls == ProviderCalls(env) + rest
    ensures |rest| <= 2
    ensures |rest| >= 1 ==> rest[0].InsertDocument?
    ensures |rest| == 2 ==> rest[1].UpdateCredits? && env.insert.Some?
    ensures forall i :: 0 <= i < |rest| ==> !rest[i].CallProvider?
  {
    AfterProvider(env);
    rest := CallsFromAnalyzed(env.session.value, env.user.credits, env.form.value, result,
                              ProviderCalls(env), env);
  }

  /** The calls a run from the analysed stage adds: at most the insert and then the credit
      update, the update only after a successful insert. */
  lemma CallsFromAnalyzed(uid: string, credits: int, form: Form, result: AnalysisResult,
                          calls: seq<Call>, env: Environment) returns (rest: seq<Call>)
    ensures Run(Machine(Analyzed(uid, credits, form, result), calls, None, None), env).calls
              == calls + rest
    ensures |rest| <= 2
    ensures |rest| >= 1 ==> rest[0].InsertDocument?
    ensures |rest| == 2 ==> rest[1].UpdateCredits? && env.insert.Some?
    ensures forall i :: 0 <= i < |rest| ==> !rest[i].CallProvider?
  {
    RunFromAnalyzed(uid, credits, form, result, calls, env);
    var row := RowFor(uid, form, result);
    if env.insert.None? {
      rest := [InsertDocument(row)];
    } else {
      rest := [InsertDocument(row), UpdateCredits(uid, credits - 1)];
    }
  }

  /** The calls of a request that passed the guards: the three reads, the provider, and
      then at most the insert followed by the credit update. */
  lemma CallsAfterGuards(env: Environment) returns (rest: seq<Call>)
    requires PassesGuards(env)
    ensures Post(env).calls == ProviderCalls(env) + rest
    ensures |rest| <= 2
    ensures |rest| >= 1 ==> rest[0].InsertDocument?
    ensures |rest| == 2 ==> rest[1].UpdateCredits? && env.insert.Some?
    ensures forall i :: 0 <= i < |rest| ==> !rest[i].CallProvider?
  {
    if AnalysisOf(env).Err? {
      PostAnalysisFailed(env);
      rest := [];
    } else {
      rest := CallsAfterAnalysis(env, AnalysisOf(env).value);
    }
  }

  /** No credit update among the calls. */
  predicate NoCharge(calls: seq<Call>) {
    forall i :: 0 <= i < |calls| ==> !calls[i].UpdateCredits?
  }

  /** Calls without a credit update, then at most an insert and a credit update in that
      order: every credit update follows the insert. */
  lemma ChargeFollowsSaveSplit(prefix: seq<Call>, rest: seq<Call>, env: Environment)
    requires NoCharge(prefix) && |rest| <= 2
    requires |rest| >= 1 ==> rest[0].InsertDocument?
    requires |rest| == 2 ==> env.insert.Some?
    ensures ChargeFollowsSave(prefix + rest, env)
  {
    var calls := prefix + rest;
    forall i | 0 <= i < |calls| && calls[i].UpdateCredits?
      ensures 0 < i && calls[i - 1].InsertDocument? && env.insert.Some?
    {
      assert calls[i] == rest[i - |prefix|];
    }
  }

  /** The provider call sits at index 3 when the calls are three other calls, the provider
      call and then calls of other kinds. */
  lemma ProviderAtThree(prefix: seq<Call>, rest: seq<Call>)
    requires |prefix| == 4 && prefix[3].CallProvider?
    requires forall i :: 0 <= i < 3 ==> !prefix[i].CallProvider?
    requires forall i :: 0 <= i < |rest| ==> !rest[i].CallProvider?
    ensures forall i :: 0 <= i < |prefix + rest| && (prefix + rest)[i].CallProvider? ==> i == 3
  {
    var calls := prefix + rest;
    forall i | 0 <= i < |calls| && calls[i].CallProvider? ensures i == 3 {
      assert calls[i] == prefix[i];
    }
  }

  /** The calls up to the provider: three reads, then the provider call. */
  lemma ProviderCallsShape(env: Environment)
    requires PassesGuards(env)
    ensures var pc := ProviderCalls(env);
      && |pc| == 4 && pc[3].CallProvider? && pc[..3] == GuardCalls(env)
      && NoCharge(pc) && (forall i :: 0 <= i < 3 ==> !pc[i].CallProvider?)
  {
    CallsShape(GuardCalls(env), CallProvider(RequestOf(env)), env.session.value);
  }

  /** `ProviderCallsShape` for any user id and provider call. */
  lemma CallsShape(guards: seq<Call>, provider: Call, uid: string)
    requires guards == [GetSession, SelectCredits(uid), ReadForm] && provider.CallProvider?
    ensures var pc := guards + [provider];
      && |pc| == 4 && pc[3].CallProvider? && pc[..3] == guards
      && NoCharge(pc) && (forall i :: 0 <= i < 3 ==> !pc[i].CallProvider?)
  {
    var pc := guards + [provider];
    assert pc == [GetSession, SelectCredits(uid), ReadForm, provider];
  }

  /** A document is saved only for a request that passed the guards and whose analysis
      succeeded. */
  lemma StoredOnlyAfterAnalysis(env: Environment)
    ensures Post(env).stored.Some? ==> PassesGuards(env) && AnalysisOf(env).Ok?
  {
    if !PassesGuards(env) {
      GuardExit(env);
    } else if AnalysisOf(env).Err? {
      PostAnalysisFailed(env);
    }
  }

  /** Whatever the environment does, the credit is updated only right after a successful
      document insert. */
  lemma {:induction false} ChargeOnlyAfterSave(env: Environment)
    ensures ChargeFollowsSave(Post(env).calls, env)
  {
    if !PassesGuards(env) {
      GuardExit(env);
    } else {
      var rest := CallsAfterGuards(env);
      ProviderCallsShape(env);
      ChargeFollowsSaveSplit(ProviderCalls(env), rest, env);
    }
  }

  /** The provider is called only for a user with credits left, and only after the session,
      the credits and the form have been read, in that order. */
  lemma {:induction false} ProviderOnlyWithCredit(env: Environment)
    ensures forall i :: 0 <= i < |Post(env).calls| && Post(env).calls[i].CallProvider? ==>
      && env.session.Some? && env.user.Row? && env.user.credits > 0
      && i == 3 && Post(env).calls[..3] == GuardCalls(env)
  {
    if !PassesGuards(env) {
      GuardExit(env);
    } else {
      var rest := CallsAfterGuards(env);
      ProviderCallsShape(env);
      ProviderAtThree(ProviderCalls(env), rest);
      PrefixOfCalls(Post(env).calls, ProviderCalls(env), rest, GuardCalls(env));
    }
  }

  /** The first three calls of `pc + rest` are those of `pc`. */
  lemma PrefixOfCalls(calls: seq<Call>, pc: seq<Call>, rest: seq<Call>, guards: seq<Call>)
    requires calls == pc + rest && |pc| == 4 && pc[..3] == guards
    ensures calls[..3] == guards
  {
    assert calls[..3] == pc[..3];
  }
}
