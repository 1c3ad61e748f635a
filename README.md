# FlowService decision logic, modelled in Dafny

`FlowService.executeFlow` runs one linear pass:

1. It POSTs the credentials to the generate endpoint.
2. It picks one of two question URLs by the parity of the registration number.
3. It obtains the question text: the remote page first, then the inline text, then a local file.
4. It asks a solver for a final query.
5. It POSTs `{"finalQuery": …}` with the access token as the Authorization header.

Each step can end the run early. This project models that decision logic. Every external call becomes an input value. Every call the flow makes is recorded, in order, as a trace.

Modules:

- `Wrappers`: `Option`.
- `JavaText`: the Java and Spring string behaviour the flow relies on.
  - Nullable strings (`JString`).
  - `Character.isWhitespace` and `StringUtils.hasText`.
  - `String.length` as UTF-16 code units.
  - Java's truncating `%`.
  - `String.join("\n", …)`, with a newline split as its proved inverse.
- `Parity`: `isRegNoLastTwoDigitsOdd`. This includes `replaceAll("\\D+", "")`, which is ASCII-only, and `Integer.parseInt` with its 32-bit range.
- `FlowIo`: the boundary.
  - The immutable configuration record.
  - The outcomes of the generate call (after its retries), the question GET, the local file, the solver and the submit call.
  - The `Call` trace and the terminal `Outcome`.
- `QuestionText`: `fetchQuestionText`, `fallbackQuestionText` and their `orElseGet` composition.
- `Flow`: the whole run.
  - `Flow` is a function of configuration and environment, written stage by stage.
  - `ExecuteFlow` is the step-by-step procedure with early returns, proved to produce exactly that run.
  - Lemmas state what the run promises: step order, early exits, what is submitted and where, and that the shipped placeholder solver never submits.

Where the code's own comments and log messages say one thing and the code does another, the model follows the code:

- The comment at FlowService.java:124 and the log message at FlowService.java:137 speak of submitting to the webhook. The answer is in fact POSTed to the configured `submitUrl` (FlowService.java:129), not to the webhook the generate call returns. The webhook is only checked for text.
- When the generate retries run out, `block()` throws. `executeFlow` has no handler around that call (FlowService.java:71-78), so the exception escapes (`Escaped(GenerateFailed)`); the run does not end in the logged early return of FlowService.java:80-83.
- The access token is never checked (FlowService.java:86, 130). A null token is passed to `.header(...)` unchanged; what WebClient then sends is not modelled.
- A null `submitUrl` makes `URI.create` throw inside the submit's `try` (FlowService.java:127-140), so that run ends as a failed submit, like any other failure of the POST.
- `Map.of` rejects null values (FlowService.java:65-69). A null name, regNo or email therefore throws before any request (`Escaped(NullCredential)`). As a result, the null branch of `isRegNoLastTwoDigitsOdd` is never reached from `executeFlow`.
- The local file's content is not length-checked. An existing empty file yields the text `""`, which is not null, so the flow goes on to solve it.

## Model

| member | source | states |
|---|---|---|
| `JavaText.WhitespaceExamples` | FlowService.java:172-175 | the `hasText` tests here and at lines 80, 119 and 150 use Java's whitespace: tab, newline, U+001F, the em space and the ideographic space are whitespace; the no-break spaces U+00A0, U+2007, U+202F and the zero-width space are not; so null, `""` and `" \t\n"` have no text while a lone no-break space has |
| `JavaText.HasTextConcat` | FlowService.java:80 | `hasText` of a concatenation holds exactly when it holds of one of the parts |
| `JavaText.Utf16Length` | FlowService.java:160 | `page.length()` counts UTF-16 code units: a code point in the Basic Multilingual Plane counts one and any other two; the total lies between the number of code points and twice that, and equals it exactly when every code point is in the Basic Multilingual Plane |
| `JavaText.Utf16LengthConcat` | FlowService.java:160 | the length of a concatenation is the sum of the lengths, so with the one-character case the length is the sum over code points of one or two |
| `JavaText.JoinWithNewline` | FlowService.java:179 | the joined text starts with the first line, and holds a newline as soon as there are two lines |
| `JavaText.JavaRem` | FlowService.java:196 | Java's `%` is the remainder of division rounded toward zero: `a == b * q + r`, `|r| < |b|`, and `r` has the sign of `a` |
| `JavaText.JoinSplit` | FlowService.java:179 | splitting text at newlines and joining the pieces with `"\n"` gives the text back |
| `JavaText.SplitJoin` | FlowService.java:179 | lines without a newline, joined with `"\n"`, split back into exactly those lines: the file text determines the lines read |
| `Parity.IsRegNoLastTwoDigitsOdd` | FlowService.java:188-207 | the rule answers odd exactly when regNo is null, has no ASCII digit, or its last ASCII digit is odd: whichever branch runs, the answer is the parity of the last digit |
| `Parity.LastTwoDigitsParity` | FlowService.java:192-204 | the last two digits always parse, and both the two-digit and the one-digit reading give the parity of the last digit |
| `Parity.DigitValue` | FlowService.java:203 | `Character.getNumericValue` of an ASCII digit is at most 9 and odd exactly for 1, 3, 5, 7, 9 |
| `Parity.AsciiDigits` | FlowService.java:191 | the result of `replaceAll("\\D+", "")` holds only ASCII digits and is no longer than the input |
| `Parity.ParseInt` | FlowService.java:195 | `Integer.parseInt` only ever yields a value in the 32-bit range |
| `Parity.ParseTwoDigitsNeverFails` | FlowService.java:193-199 | two ASCII digits always parse, to ten times the first plus the second, so the `NumberFormatException` branch is unreachable |
| `Parity.AsciiDigitsConcat` | FlowService.java:191 | digit extraction distributes over concatenation |
| `Parity.DefaultsToOdd` | FlowService.java:188-207 | a null registration number, or one with no ASCII digit, yields "odd" |
| `Parity.ParityOfLastDigit` | FlowService.java:191-204 | with at least one ASCII digit, the result is exactly "the last ASCII digit is odd"; reading two digits never changes it |
| `Parity.NonDigitsIgnored` | FlowService.java:191 | inserting a character that is not an ASCII digit anywhere never changes the result |
| `Parity.OnlyDigitsMatter` | FlowService.java:191-206 | the result depends only on the extracted digit string |
| `Parity.TwoDigitExamples` | FlowService.java:192-196 | "REG12723" (ending 23) is odd and "REG12724" (ending 24) is even |
| `Parity.ShortExamples` | FlowService.java:202-206 | single digits decide by their own parity ("A7" odd, "B8" even); "REG" and null are odd |
| `QuestionText.FetchQuestionText` | FlowService.java:149-169 | no request unless the URL has text, otherwise exactly one GET; the page is returned exactly when it is non-null and longer than 20 code units, and is otherwise empty (failure, null, short) |
| `QuestionText.FallbackQuestionText` | FlowService.java:171-186 | inline text with text wins verbatim without touching the file; otherwise a path with text is consulted once, and yields text exactly when the file has lines, text that splits back into those lines (an empty file gives `""`); a missing or unreadable file, or a path without text, yields empty |
| `QuestionText.ObtainQuestionText` | FlowService.java:96-100 | there is question text exactly when the page is usable, the inline text has text, or the file path has text and the file exists and is readable; at most two calls are made |
| `QuestionText.SourcePriority` | FlowService.java:96-100 | the question text is the first of: a usable remote page, inline text with text, the joined file lines; else null |
| `QuestionText.PageLengthDecidesFallback` | FlowService.java:96-100 | a page longer than 20 code units is used and neither fallback is consulted; a shorter page, a null body and a failed request all reach the same fallback after the one GET |
| `QuestionText.QuestionCallsExactly` | FlowService.java:96-100 | the calls made are one GET when the URL has text, then one file read only when the fetch yielded nothing, the inline text has none and the path has text |
| `Flow.ChosenQuestionUrl` | FlowService.java:92 | the URL is one of the two configured ones, and (when they differ) `q1Url` exactly when the parity rule says odd |
| `Flow.SolveSqlQuestion` | FlowService.java:110-117 | the solver is called once on the question text; a non-null result is its answer and an exception yields null |
| `Flow.PlaceholderSolver` | FlowService.java:215-221 | the shipped solver returns normally and never with text |
| `Flow.Flow` | FlowService.java:61-141 | the run makes no call exactly when a credential is null, and makes at most five calls |
| `Flow.ExecuteFlow` | FlowService.java:61-141 | the step-by-step procedure ends with exactly the outcome and call trace of `Flow` |
| `Flow.FlowStepsInOrder` | FlowService.java:61-141 | calls come in the order generate, fetch, file read, solve, submit; each at most once, never re-entering an earlier step |
| `Flow.ChosenUrlByLastDigit` | FlowService.java:91-92 | the chosen URL is `q1Url` when the last ASCII digit of regNo is odd and `q2Url` when it is even |
| `Flow.ChosenUrlDefault` | FlowService.java:92 | a null regNo, or one without digits, chooses `q1Url` |
| `Flow.NullCredentialStopsEverything` | FlowService.java:65-69 | a null name, regNo or email, and nothing else, makes the run throw before any call; any call implies a non-null regNo |
| `Flow.GenerateFailureStopsFlow` | FlowService.java:71-83 | exhausted retries (exception escapes), a null response or a webhook without text end the run with only the generate call made |
| `Flow.FetchUsesChosenUrl` | FlowService.java:92-96 | a question GET happens only after a granted webhook, as the second call, to the URL the parity rule chose |
| `Flow.NoQuestionStopsFlow` | FlowService.java:102-105 | without question text the run ends with nothing solved or submitted |
| `Flow.SolvedTextIsObtainedQuestion` | FlowService.java:96-112 | a solve happens only after a granted webhook, and what is solved is exactly the question text the source priority obtained |
| `Flow.UnusableAnswerStopsFlow` | FlowService.java:110-122 | a solver exception, a null answer or a whitespace-only answer ends the run with the solve as the last call: no submit |
| `Flow.SubmitRequestContents` | FlowService.java:125-140 | a submit is a single POST and the last call, right after the solve, to the configured `submitUrl`; the Authorization value is the token verbatim and the body is exactly `{"finalQuery": answer}`; a failed submit, or a null `submitUrl`, ends the run without an exception |
| `Flow.SubmitExactlyWhenAllStepsSucceed` | FlowService.java:80-122 | a submit is issued exactly when the credentials are non-null, the webhook is granted, question text is obtained and the answer has text |
| `Flow.PlaceholderNeverSubmits` | FlowService.java:215-221 | with the shipped solver, which always returns null, the flow never submits |
| `Flow.EndToEndRun` | FlowService.java:61-141 | a complete run: "REG12723" fetches `q1Url`; a 25-character page is used; "SELECT 1" is posted with token "tok-1" to a non-null `submitUrl`, and the run ends submitted |

## Left out

- The retry policy of the generate call (3 retries, 1 s first backoff, 5 s cap, jitter 0.25; FlowService.java:143-147) is Reactor timing and randomness. Only the retried call's final outcome is modelled: a response, or the exception once the retries are exhausted.
- The 10 s question timeout and 20 s submit timeout are network timing. A timeout is one of the failures `FetchFailed` and `SubmitError`.
- HTTP itself, JSON encoding of the request bodies, and Jackson's mapping of the generate response (ignoring unknown fields) are library behaviour. Bodies are modelled as string maps. The response is modelled as a record of two nullable strings.
- `URI.create` validation of the configured URLs is not modelled beyond null. A null or malformed `generateUrl` throws before any request is sent; the model folds that into the generate outcome. A malformed question URL is one of the failures `FetchFailed`.
- Flow.EndToEndRun: a malformed non-null `submitUrl` also throws inside the submit's `try`; the model represents it by `env.submit == SubmitError`, and only a null `submitUrl` is decided by the configuration itself.
- `Files.readAllLines`'s UTF-8 decoding and its line-terminator splitting are not modelled. The file is given as its lines; each line is free of `\n` and `\r`.
- Logging, the constructor, `WebClient` construction and `@Value` injection (FlowService.java:37-59) are configuration plumbing. The fields are an immutable configuration record.
- The real SQL solver does not exist. The solver is a parameter of the environment; `PlaceholderSolver` is the shipped instance.
- Parity.ParseInt: accepts only ASCII decimal digits, while Java's `Integer.parseInt` also accepts other Unicode decimal digits; it is only ever applied to ASCII digits here.
- Strings are sequences of Unicode code points, so a Java string holding an unpaired surrogate cannot be represented. `String.length` is modelled by `Utf16Length`.
- What WebClient does with a null Authorization value is library behaviour. The model records the value the code passes, unchanged.
