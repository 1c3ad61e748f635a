/**
 * executeFlow: generate, choose the question URL, obtain the question
 * text, solve, submit, with an early exit after each step that yields
 * nothing. Flow states the run as a function of the configuration and the
 * environment; ExecuteFlow is the step-by-step procedure, proved to
 * produce that run; the lemmas state what the run promises.
 */
module Flow {
  import opened Wrappers
  import opened JavaText
  import opened Parity
  import opened FlowIo
  import opened QuestionText

  predicate CredentialsPresent(cfg: Config) {
    cfg.name.Some? && cfg.regNo.Some? && cfg.email.Some?
  }

  /** The generate request body: Map.of("name", …, "regNo", …, "email", …). */
  function GenerateRequest(cfg: Config): map<string, string>
    requires CredentialsPresent(cfg)
  {
    map["name" := cfg.name.value, "regNo" := cfg.regNo.value, "email" := cfg.email.value]
  }

  /** The check at line 80: a non-null response whose webhook has text. */
  predicate WebhookGranted(response: Option<GenerateResponse>) {
    response.Some? && HasText(response.value.webhook)
  }

  /** Line 92: q1Url for odd, q2Url for even. */
  function ChosenQuestionUrl(cfg: Config): (url: JString)
    ensures url == cfg.q1Url || url == cfg.q2Url
    ensures cfg.q1Url != cfg.q2Url ==> (url == cfg.q1Url <==> IsRegNoLastTwoDigitsOdd(cfg.regNo))
  {
    if IsRegNoLastTwoDigitsOdd(cfg.regNo) then cfg.q1Url else cfg.q2Url
  }

  function QuestionFor(cfg: Config, env: Environment): Step<JString> {
    ObtainQuestionText(ChosenQuestionUrl(cfg), cfg.inlineQuestion, cfg.localQuestionFile,
                       env.questionServer, env.files)
  }

  /** Lines 110-117: call the solver once; an exception becomes a null final query. */
  function SolveSqlQuestion(questionText: string, solver: string -> SolveOutcome): (r: Step<JString>)
    ensures r.calls == [Solve(questionText)]
    ensures r.result.Some? ==> solver(questionText) == Answer(r.result)
    ensures solver(questionText).Threw? ==> r.result.None?
  {
    var answer := match solver(questionText)
      case Answer(query) => query
      case Threw => None;
    Step(answer, [Solve(questionText)])
  }

  /** The shipped solveSqlQuestion: it always returns null. */
  function PlaceholderSolver(questionText: string): (r: SolveOutcome)
    ensures r.Answer? && !HasText(r.query)
  {
    Answer(None)
  }

  /** The submit request body: Map.of("finalQuery", finalQuery). */
  function SubmitBody(finalQuery: string): map<string, string> {
    map["finalQuery" := finalQuery]
  }

  /** The whole run, stage by stage. */
  function Flow(cfg: Config, env: Environment): (r: Run)
    ensures r.trace == [] <==> !CredentialsPresent(cfg)
    ensures |r.trace| <= 5
  {
    if !CredentialsPresent(cfg) then Run(Escaped(NullCredential), [])
    else
      var generated := [PostGenerate(cfg.generateUrl, GenerateRequest(cfg))];
      match env.generate
      case RetriesExhausted => Run(Escaped(GenerateFailed), generated)
      case Responded(response) =>
        if !WebhookGranted(response) then Run(NoWebhook, generated)
        else FromQuestion(cfg, env, response.value.accessToken, generated)
  }

  /** The run once the webhook is granted: obtain the question text. */
  function FromQuestion(cfg: Config, env: Environment, accessToken: JString, trace: seq<Call>): Run {
    var question := QuestionFor(cfg, env);
    match question.result
    case None => Run(NoQuestionText, trace + question.calls)
    case Some(text) => FromAnswer(cfg, env, accessToken, text, trace + question.calls)
  }

  /** The run once there is question text: solve it, and submit an answer that has text. */
  function FromAnswer(cfg: Config, env: Environment, accessToken: JString, questionText: string,
                      trace: seq<Call>): Run {
    var solved := SolveSqlQuestion(questionText, env.solver);
    if !HasText(solved.result) then Run(NoFinalQuery, trace + solved.calls)
    else
      var submit := PostSubmit(cfg.submitUrl, accessToken, SubmitBody(solved.result.value));
      Run(if cfg.submitUrl.Some? && env.submit.SubmitOk? then Submitted else SubmitFailed,
          trace + solved.calls + [submit])
  }

  /** executeFlow, step by step, recording each external call as it is made. */
  method ExecuteFlow(cfg: Config, env: Environment) returns (outcome: Outcome, trace: seq<Call>)
    ensures Run(outcome, trace) == Flow(cfg, env)
  {
    if cfg.name.None? || cfg.regNo.None? || cfg.email.None? {
      // Map.of throws NullPointerException before any request
      outcome, trace := Escaped(NullCredential), [];
      return;
    }

    // 1. generate
    var requestBody := GenerateRequest(cfg);
    trace := [PostGenerate(cfg.generateUrl, requestBody)];
    if env.generate.RetriesExhausted? {
      outcome := Escaped(GenerateFailed);
      return;
    }
    var generateResponse := env.generate.response;
    if generateResponse.None? || !HasText(generateResponse.value.webhook) {
      outcome := NoWebhook;
      return;
    }
    var accessToken := generateResponse.value.accessToken;

    // 2. choose the question
    var lastTwoDigitsOdd := IsRegNoLastTwoDigitsOdd(cfg.regNo);
    var chosenQuestionUrl := if lastTwoDigitsOdd then cfg.q1Url else cfg.q2Url;

    // 3. question text: remote, or else the fallback
    var question := ObtainQuestionText(chosenQuestionUrl, cfg.inlineQuestion, cfg.localQuestionFile,
                                       env.questionServer, env.files);
    trace := trace + question.calls;
    var questionText := question.result;
    if questionText.None? {
      outcome := NoQuestionText;
      return;
    }

    // 4. solve; an exception leaves no final query
    var finalQuery: JString;
    trace := trace + [Solve(questionText.value)];
    match env.solver(questionText.value) {
      case Answer(query) => finalQuery := query;
      case Threw => finalQuery := None;
    }
    if !HasText(finalQuery) {
      outcome := NoFinalQuery;
      return;
    }

    // 5. submit, to the configured submitUrl; a failure is caught
    var submitBody := SubmitBody(finalQuery.value);
    trace := trace + [PostSubmit(cfg.submitUrl, accessToken, submitBody)];
    // URI.create(null) throws inside the try, like any failed POST
    outcome := if cfg.submitUrl.Some? && env.submit.SubmitOk? then Submitted else SubmitFailed;
  }

  lemma OrderedConcat(a: seq<Call>, b: seq<Call>)
    requires InStepOrder(a) && InStepOrder(b)
    requires forall i, j | 0 <= i < |a| && 0 <= j < |b| :: StepRank(a[i]) < StepRank(b[j])
    ensures InStepOrder(a + b)
  {
    var ab := a + b;
    forall i, j | 0 <= i < j < |ab| ensures StepRank(ab[i]) < StepRank(ab[j]) {
      if j < |a| {
        assert ab[i] == a[i] && ab[j] == a[j];
      } else if i >= |a| {
        assert ab[i] == b[i - |a|] && ab[j] == b[j - |a|];
      } else {
        assert ab[i] == a[i] && ab[j] == b[j - |a|];
      }
    }
  }

  /** The calls made for the question text belong to the fetch and file steps, in that order. */
  lemma QuestionCallsRanked(cfg: Config, env: Environment)
    ensures var calls := QuestionFor(cfg, env).calls;
      InStepOrder(calls) && forall i | 0 <= i < |calls| :: 1 <= StepRank(calls[i]) <= 2
  {
    QuestionCallsExactly(ChosenQuestionUrl(cfg), cfg.inlineQuestion, cfg.localQuestionFile,
                         env.questionServer, env.files);
  }

  /**
   * The calls follow generate, fetch, file, solve, submit, each at most
   * once: no step runs again or after a later one.
   */
  lemma FlowStepsInOrder(cfg: Config, env: Environment)
    ensures InStepOrder(Flow(cfg, env).trace)
  {
    if CredentialsPresent(cfg) && env.generate.Responded? && WebhookGranted(env.generate.response) {
      FromQuestionInOrder(cfg, env, env.generate.response.value.accessToken,
                          [PostGenerate(cfg.generateUrl, GenerateRequest(cfg))]);
    }
  }

  /** The question stage and what follows it keep the order of a trace of generate calls. */
  lemma FromQuestionInOrder(cfg: Config, env: Environment, accessToken: JString, trace: seq<Call>)
    requires InStepOrder(trace) && forall i | 0 <= i < |trace| :: StepRank(trace[i]) == 0
    ensures InStepOrder(FromQuestion(cfg, env, accessToken, trace).trace)
  {
    var question := QuestionFor(cfg, env);
    QuestionCallsRanked(cfg, env);
    OrderedConcat(trace, question.calls);
    var asked := trace + question.calls;
    assert forall i | 0 <= i < |asked| :: StepRank(asked[i]) <= 2;
    if question.result.Some? {
      FromAnswerInOrder(cfg, env, accessToken, question.result.value, asked);
    }
  }

  /** The solve and submit calls come after every fetch and file call. */
  lemma FromAnswerInOrder(cfg: Config, env: Environment, accessToken: JString, questionText: string,
                          trace: seq<Call>)
    requires InStepOrder(trace) && forall i | 0 <= i < |trace| :: StepRank(trace[i]) <= 2
    ensures InStepOrder(FromAnswer(cfg, env, accessToken, questionText, trace).trace)
  {
    var solved := SolveSqlQuestion(questionText, env.solver);
    OrderedConcat(trace, solved.calls);
    var answered := trace + solved.calls;
    assert forall i | 0 <= i < |answered| :: StepRank(answered[i]) <= 3;
    if HasText(solved.result) {
      var submit := PostSubmit(cfg.submitUrl, accessToken, SubmitBody(solved.result.value));
      OrderedConcat(answered, [submit]);
    }
  }

  /** Line 92 with the parity rule: the last ASCII digit of regNo decides between q1Url (odd) and q2Url (even). */
  lemma ChosenUrlByLastDigit(cfg: Config, k: nat)
    requires cfg.regNo.Some? && k < |cfg.regNo.value| && IsAsciiDigit(cfg.regNo.value[k])
    requires forall j | k < j < |cfg.regNo.value| :: !IsAsciiDigit(cfg.regNo.value[j])
    ensures ChosenQuestionUrl(cfg) == if DigitValue(cfg.regNo.value[k]) % 2 == 1 then cfg.q1Url else cfg.q2Url
  {
    ParityOfLastDigit(cfg.regNo.value, k);
  }

  /** Line 92 with the default of the parity rule: a null regNo, or one without ASCII digits, picks q1Url. */
  lemma ChosenUrlDefault(cfg: Config)
    requires cfg.regNo.Some? ==> forall i | 0 <= i < |cfg.regNo.value| :: !IsAsciiDigit(cfg.regNo.value[i])
    ensures ChosenQuestionUrl(cfg) == cfg.q1Url
  {
    DefaultsToOdd(cfg.regNo);
  }

  /**
   * A null name, regNo or email makes Map.of throw before any call; so the
   * null branch of the parity rule is never reached from the flow.
   */
  lemma NullCredentialStopsEverything(cfg: Config, env: Environment)
    ensures !CredentialsPresent(cfg) <==> Flow(cfg, env) == Run(Escaped(NullCredential), [])
    ensures |Flow(cfg, env).trace| > 0 ==> cfg.regNo.Some?
  {
  }

  /**
   * Exhausted retries, a null response or a webhook without text end the
   * run after the generate call: no fetch, file read, solve or submit.
   */
  lemma GenerateFailureStopsFlow(cfg: Config, env: Environment)
    requires CredentialsPresent(cfg)
    requires env.generate.RetriesExhausted? || !WebhookGranted(env.generate.response)
    ensures Flow(cfg, env).trace == [PostGenerate(cfg.generateUrl, GenerateRequest(cfg))]
    ensures Flow(cfg, env).outcome == if env.generate.RetriesExhausted? then Escaped(GenerateFailed) else NoWebhook
  {
  }

  /** The question fetch goes to the URL the parity rule chose, right after a granted webhook. */
  lemma FetchUsesChosenUrl(cfg: Config, env: Environment, i: nat)
    requires i < |Flow(cfg, env).trace| && Flow(cfg, env).trace[i].GetQuestion?
    ensures CredentialsPresent(cfg) && env.generate.Responded? && WebhookGranted(env.generate.response)
    ensures i == 1 && ChosenQuestionUrl(cfg) == Some(Flow(cfg, env).trace[i].questionUrl)
  {
    var run := Flow(cfg, env);
    assert CredentialsPresent(cfg) && env.generate.Responded? && WebhookGranted(env.generate.response);
    QuestionCallsExactly(ChosenQuestionUrl(cfg), cfg.inlineQuestion, cfg.localQuestionFile,
                         env.questionServer, env.files);
    FlowStepsInOrder(cfg, env);
    assert run.trace[0].PostGenerate?;
  }

  /** Without question text the run ends there: nothing is solved or submitted. */
  lemma NoQuestionStopsFlow(cfg: Config, env: Environment)
    requires CredentialsPresent(cfg) && env.generate.Responded? && WebhookGranted(env.generate.response)
    requires QuestionFor(cfg, env).result.None?
    ensures Flow(cfg, env).outcome == NoQuestionText
    ensures forall i | 0 <= i < |Flow(cfg, env).trace| ::
              !Flow(cfg, env).trace[i].Solve? && !Flow(cfg, env).trace[i].PostSubmit?
  {
    QuestionCallsRanked(cfg, env);
  }

  /**
   * A solver exception, a null query or a whitespace-only query ends the
   * run with the solve as its last call: no submit.
   */
  lemma UnusableAnswerStopsFlow(cfg: Config, env: Environment, i: nat)
    requires i < |Flow(cfg, env).trace| && Flow(cfg, env).trace[i].Solve?
    requires !HasText(SolveSqlQuestion(Flow(cfg, env).trace[i].questionText, env.solver).result)
    ensures Flow(cfg, env).outcome == NoFinalQuery
    ensures i == |Flow(cfg, env).trace| - 1
  {
    assert CredentialsPresent(cfg) && env.generate.Responded? && WebhookGranted(env.generate.response);
    QuestionCallsRanked(cfg, env);
    assert QuestionFor(cfg, env).result.Some?;
  }

  /**
   * What is solved is the question text the source priority picked: the
   * solver runs once the text is obtained, and on exactly that text.
   */
  lemma SolvedTextIsObtainedQuestion(cfg: Config, env: Environment, i: nat)
    requires i < |Flow(cfg, env).trace| && Flow(cfg, env).trace[i].Solve?
    ensures CredentialsPresent(cfg) && env.generate.Responded? && WebhookGranted(env.generate.response)
    ensures QuestionFor(cfg, env).result == Some(Flow(cfg, env).trace[i].questionText)
  {
    assert CredentialsPresent(cfg) && env.generate.Responded? && WebhookGranted(env.generate.response);
    QuestionCallsRanked(cfg, env);
    assert QuestionFor(cfg, env).result.Some?;
  }

  /**
   * A submit is a single POST, the last call, to the configured submitUrl
   * (not the granted webhook), with the access token verbatim as the
   * Authorization value and {"finalQuery": q} as the body, where q is the
   * solver's answer to the question just solved; its failure ends the run
   * quietly.
   */
  lemma SubmitRequestContents(cfg: Config, env: Environment, i: nat)
    requires i < |Flow(cfg, env).trace| && Flow(cfg, env).trace[i].PostSubmit?
    ensures env.generate.Responded? && env.generate.response.Some?
    ensures i == |Flow(cfg, env).trace| - 1 && i >= 2
    ensures var run := Flow(cfg, env);
      var solve := run.trace[i - 1];
      var answer := SolveSqlQuestion(solve.questionText, env.solver).result;
      solve.Solve? && HasText(answer)
      && run.trace[i] == PostSubmit(cfg.submitUrl, env.generate.response.value.accessToken, SubmitBody(answer.value))
      && run.trace[i].body.Keys == {"finalQuery"} && run.trace[i].body["finalQuery"] == answer.value
    ensures Flow(cfg, env).outcome == if cfg.submitUrl.Some? && env.submit.SubmitOk? then Submitted else SubmitFailed
  {
    var run := Flow(cfg, env);
    assert CredentialsPresent(cfg) && env.generate.Responded? && WebhookGranted(env.generate.response);
    QuestionCallsRanked(cfg, env);
    var question := QuestionFor(cfg, env);
    var asked := [PostGenerate(cfg.generateUrl, GenerateRequest(cfg))] + question.calls;
    assert question.result.Some?;
    var solved := SolveSqlQuestion(question.result.value, env.solver);
    assert HasText(solved.result);
    assert |run.trace| == |asked| + 2;
  }

  /** A submit happens exactly when every earlier step produced its value. */
  lemma SubmitExactlyWhenAllStepsSucceed(cfg: Config, env: Environment)
    ensures var run := Flow(cfg, env);
      (exists i | 0 <= i < |run.trace| :: run.trace[i].PostSubmit?)
      <==> (run.outcome == Submitted || run.outcome == SubmitFailed)
    ensures var run := Flow(cfg, env);
      (run.outcome == Submitted || run.outcome == SubmitFailed)
      <==> CredentialsPresent(cfg) && env.generate.Responded? && WebhookGranted(env.generate.response)
           && QuestionFor(cfg, env).result.Some?
           && HasText(SolveSqlQuestion(QuestionFor(cfg, env).result.value, env.solver).result)
  {
    var run := Flow(cfg, env);
    if exists i | 0 <= i < |run.trace| :: run.trace[i].PostSubmit? {
      var i :| 0 <= i < |run.trace| && run.trace[i].PostSubmit?;
      SubmitRequestContents(cfg, env, i);
    }
    if run.outcome == Submitted || run.outcome == SubmitFailed {
      assert run.trace[|run.trace| - 1].PostSubmit?;
    }
  }

  /** With the shipped placeholder solver the flow never submits. */
  lemma PlaceholderNeverSubmits(cfg: Config, env: Environment)
    ensures var run := Flow(cfg, env.(solver := PlaceholderSolver));
      run.outcome != Submitted && run.outcome != SubmitFailed
      && forall i | 0 <= i < |run.trace| :: !run.trace[i].PostSubmit?
  {
    SubmitExactlyWhenAllStepsSucceed(cfg, env.(solver := PlaceholderSolver));
  }

  /**
   * A complete run: regNo "REG12723" (digits 12723, last two 23, odd)
   * fetches q1Url, whose 25-character page is used as it is; the answer
   * "SELECT 1" is posted to the configured submitUrl with the token
   * "tok-1" verbatim, although the granted webhook differs.
   */
  lemma EndToEndRun(cfg: Config, env: Environment, page: string)
    requires cfg.name.Some? && cfg.email.Some? && cfg.regNo == Some("REG12723")
    requires cfg.q1Url == Some("https://q/1") && cfg.submitUrl.Some?
    requires env.generate == Responded(Some(GenerateResponse(Some("https://x/submit"), Some("tok-1"))))
    requires |page| == 25 && env.questionServer("https://q/1") == Page(Some(page))
    requires env.solver(page) == Answer(Some("SELECT 1"))
    requires env.submit == SubmitOk
    ensures Flow(cfg, env) == Run(Submitted, [
      PostGenerate(cfg.generateUrl, GenerateRequest(cfg)),
      GetQuestion("https://q/1"),
      Solve(page),
      PostSubmit(cfg.submitUrl, Some("tok-1"), map["finalQuery" := "SELECT 1"])])
  {
    ChosenUrlByLastDigit(cfg, 7);
    assert HasText(Some("https://q/1")) by {
      assert !IsJavaWhitespace("https://q/1"[0]);
    }
    assert HasText(Some("https://x/submit")) by {
      assert !IsJavaWhitespace("https://x/submit"[0]);
    }
    assert HasText(Some("SELECT 1")) by {
      assert !IsJavaWhitespace("SELECT 1"[0]);
    }
    var generated := [PostGenerate(cfg.generateUrl, GenerateRequest(cfg))];
    assert QuestionFor(cfg, env) == Step(Some(page), [GetQuestion("https://q/1")]) by {
      assert Utf16Length(page) > SHORT_PAGE_LIMIT;
      assert FetchQuestionText(Some("https://q/1"), env.questionServer) == Step(Some(page), [GetQuestion("https://q/1")]);
    }
    assert Flow(cfg, env) == FromQuestion(cfg, env, Some("tok-1"), generated);
    assert FromQuestion(cfg, env, Some("tok-1"), generated)
        == FromAnswer(cfg, env, Some("tok-1"), page, generated + [GetQuestion("https://q/1")]);
  }
}
