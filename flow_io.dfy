/**
 * The boundary between FlowService and the outside world. Configuration
 * is an immutable record; every outcome of an external call (the
 * generate POST with its retries, the question GET, the local file, the
 * solver, the submit POST) is an input value; every call the flow makes
 * is recorded, in order, as a Call.
 */
module FlowIo {
  import opened Wrappers
  import opened JavaText

  /** The service's final fields, as injected at construction. */
  datatype Config = Config(
    name: JString,
    regNo: JString,
    email: JString,
    generateUrl: JString,
    submitUrl: JString,
    q1Url: JString,
    q2Url: JString,
    localQuestionFile: JString,
    inlineQuestion: JString)

  /** The GenerateResponse DTO: both fields may be null. */
  datatype GenerateResponse = GenerateResponse(webhook: JString, accessToken: JString)

  /**
   * What `.retryWhen(retrySpec()).block()` on the generate call yields:
   * a (possibly null) response, or the exception thrown once the retries
   * are exhausted.
   */
  datatype GenerateOutcome =
    | Responded(response: Option<GenerateResponse>)
    | RetriesExhausted

  /** The question GET: a (possibly null) body, or any exception (timeout, status, bad URI). */
  datatype FetchOutcome = Page(body: JString) | FetchFailed

  /** A line as Files.readAllLines returns it: the line terminators are stripped. */
  type Line = s: string | '\n' !in s && '\r' !in s

  /** The local question file: absent, unreadable (the read throws), or its lines. */
  datatype FileState = Missing | Unreadable | Lines(lines: seq<Line>)

  /** The solver: a (possibly null) final query, or an exception. */
  datatype SolveOutcome = Answer(query: JString) | Threw

  /** The submit POST: completes, or throws. */
  datatype SubmitOutcome = SubmitOk | SubmitError

  /** Everything outside the service that the flow consults. */
  datatype Environment = Environment(
    generate: GenerateOutcome,
    questionServer: string -> FetchOutcome,
    files: string -> FileState,
    solver: string -> SolveOutcome,
    submit: SubmitOutcome)

  /** The calls the flow makes, in the order it makes them. */
  datatype Call =
    | PostGenerate(generateUrl: JString, request: map<string, string>)
    | GetQuestion(questionUrl: string)
    | ReadLocalFile(path: string)
    | Solve(questionText: string)
    | PostSubmit(submitUrl: JString, authorization: JString, body: map<string, string>)

  /** A value computed together with the calls made to compute it. */
  datatype Step<T> = Step(result: T, calls: seq<Call>)

  /** Why an exception escapes executeFlow. */
  datatype Escape =
    | NullCredential     // Map.of rejects a null name, regNo or email
    | GenerateFailed     // block() rethrows once the generate retries are exhausted

  /** How a run of executeFlow ends. */
  datatype Outcome =
    | Escaped(cause: Escape)
    | NoWebhook
    | NoQuestionText
    | NoFinalQuery
    | SubmitFailed
    | Submitted

  datatype Run = Run(outcome: Outcome, trace: seq<Call>)

  /** The position of each kind of call in the fixed step sequence. */
  function StepRank(c: Call): nat {
    match c
    case PostGenerate(_, _) => 0
    case GetQuestion(_) => 1
    case ReadLocalFile(_) => 2
    case Solve(_) => 3
    case PostSubmit(_, _, _) => 4
  }

  /** Every call comes from a later step than the one before it, so no step runs twice. */
  predicate InStepOrder(trace: seq<Call>) {
    forall i, j | 0 <= i < j < |trace| :: StepRank(trace[i]) < StepRank(trace[j])
  }
}
