/**
 * Where the question text comes from: the chosen URL first, then the
 * inline configured text, then the local file (fetchQuestionText,
 * fallbackQuestionText and their composition with orElseGet).
 */
module QuestionText {
  import opened Wrappers
  import opened JavaText
  import opened FlowIo

  /** A fetched page is ignored unless it is longer than this, in UTF-16 code units. */
  const SHORT_PAGE_LIMIT: nat := 20

  predicate UsablePage(f: FetchOutcome) {
    f.Page? && f.body.Some? && Utf16Length(f.body.value) > SHORT_PAGE_LIMIT
  }

  /**
   * fetchQuestionText: no request for a URL without text; otherwise one
   * GET, whose body is kept only when it is long enough.
   */
  function FetchQuestionText(questionUrl: JString, server: string -> FetchOutcome): (r: Step<JString>)
    ensures !HasText(questionUrl) ==> r == Step(None, [])
    ensures HasText(questionUrl) ==> r.calls == [GetQuestion(questionUrl.value)]
    ensures r.result.Some? <==> HasText(questionUrl) && UsablePage(server(questionUrl.value))
    ensures r.result.Some? ==>
              server(questionUrl.value) == Page(r.result) && Utf16Length(r.result.value) > SHORT_PAGE_LIMIT
  {
    if !HasText(questionUrl) then Step(None, [])
    else
      var response := server(questionUrl.value);
      var page := if response.Page? then response.body else None;
      var calls := [GetQuestion(questionUrl.value)];
      if page.Some? && Utf16Length(page.value) > SHORT_PAGE_LIMIT then Step(page, calls)
      else Step(None, calls)
  }

  /**
   * fallbackQuestionText: inline text with text wins verbatim; otherwise a
   * local file path with text is read and its lines joined with newlines.
   */
  function FallbackQuestionText(inlineQuestion: JString, localQuestionFile: JString,
                                files: string -> FileState): (r: Step<JString>)
    ensures HasText(inlineQuestion) ==> r == Step(inlineQuestion, [])
    ensures !HasText(inlineQuestion) && !HasText(localQuestionFile) ==> r == Step(None, [])
    ensures !HasText(inlineQuestion) && HasText(localQuestionFile) ==>
              r.calls == [ReadLocalFile(localQuestionFile.value)]
              && (r.result.Some? <==> files(localQuestionFile.value).Lines?)
    ensures r.result.Some? && !HasText(inlineQuestion) ==>
              var lines := files(localQuestionFile.value).lines;
              if lines == [] then r.result.value == "" else SplitAtNewlines(r.result.value) == lines
  {
    if HasText(inlineQuestion) then Step(inlineQuestion, [])
    else if HasText(localQuestionFile) then
      var path := localQuestionFile.value;
      var calls := [ReadLocalFile(path)];
      match files(path)
      case Lines(lines) =>
        var text := JoinWithNewline(lines);
        assert |lines| >= 1 ==> SplitAtNewlines(text) == lines by {
          if |lines| >= 1 {
            SplitJoin(lines);
          }
        }
        Step(Some(text), calls)
      case _ => Step(None, calls)
    else Step(None, [])
  }

  /**
   * Lines 96-100: the fetched text, or else (and only then) the fallback,
   * with null when neither yields text.
   */
  function ObtainQuestionText(questionUrl: JString, inlineQuestion: JString, localQuestionFile: JString,
                              server: string -> FetchOutcome, files: string -> FileState): (r: Step<JString>)
    ensures r.result.Some? <==>
              (HasText(questionUrl) && UsablePage(server(questionUrl.value))) || HasText(inlineQuestion)
              || (HasText(localQuestionFile) && files(localQuestionFile.value).Lines?)
    ensures |r.calls| <= 2
  {
    var fetched := FetchQuestionText(questionUrl, server);
    if fetched.result.Some? then fetched
    else
      var fallback := FallbackQuestionText(inlineQuestion, localQuestionFile, files);
      Step(fallback.result, fetched.calls + fallback.calls)
  }

  /** The question text is the first of: a usable remote page, inline text with text, the joined file lines. */
  lemma SourcePriority(questionUrl: JString, inlineQuestion: JString, localQuestionFile: JString,
                       server: string -> FetchOutcome, files: string -> FileState)
    ensures var r := ObtainQuestionText(questionUrl, inlineQuestion, localQuestionFile, server, files);
      r.result ==
        if HasText(questionUrl) && UsablePage(server(questionUrl.value)) then server(questionUrl.value).body
        else if HasText(inlineQuestion) then inlineQuestion
        else if HasText(localQuestionFile) && files(localQuestionFile.value).Lines? then
          Some(JoinWithNewline(files(localQuestionFile.value).lines))
        else None
  {
  }

  /**
   * A page longer than SHORT_PAGE_LIMIT (20) code units is used as it is and neither fallback
   * is consulted; a shorter page, a null body or a failed request all lead
   * to the same fallback, after the one GET.
   */
  lemma PageLengthDecidesFallback(questionUrl: JString, inlineQuestion: JString, localQuestionFile: JString,
                                  server: string -> FetchOutcome, files: string -> FileState)
    requires HasText(questionUrl)
    ensures var r := ObtainQuestionText(questionUrl, inlineQuestion, localQuestionFile, server, files);
      var response := server(questionUrl.value);
      if response.Page? && response.body.Some? && Utf16Length(response.body.value) > SHORT_PAGE_LIMIT then
        r == Step(response.body, [GetQuestion(questionUrl.value)])
      else
        var fallback := FallbackQuestionText(inlineQuestion, localQuestionFile, files);
        r == Step(fallback.result, [GetQuestion(questionUrl.value)] + fallback.calls)
  {
  }

  /**
   * The calls made for the question text: one GET when the URL has text,
   * then one file read only when the fetch yielded nothing, the inline text
   * has none and the path has text.
   */
  lemma QuestionCallsExactly(questionUrl: JString, inlineQuestion: JString, localQuestionFile: JString,
                             server: string -> FetchOutcome, files: string -> FileState)
    ensures ObtainQuestionText(questionUrl, inlineQuestion, localQuestionFile, server, files).calls ==
      (if HasText(questionUrl) then [GetQuestion(questionUrl.value)] else [])
      + (if !(HasText(questionUrl) && UsablePage(server(questionUrl.value)))
            && !HasText(inlineQuestion) && HasText(localQuestionFile)
         then [ReadLocalFile(localQuestionFile.value)] else [])
  {
  }
}
