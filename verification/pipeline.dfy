/** The question handler as one pure function of its collaborators: the
    transcript service, the generation service (its `generateContent` call and
    the `text()` of the response it returns) and `JSON.parse` are parameters.

    The handler fetches the transcript, joins it, builds the prompt, asks the
    generation service for a completion, sanitizes and parses it, and answers
    200 with the parsed value. A completion that does not parse is not an
    error: the answer is 200 with an empty question list. A failure of either
    service is answered with 500 and one fixed message, whichever stage
    failed. */
module Pipeline {
  import opened Wrappers
  import opened Transcript
  import opened Prompt
  import opened Sanitizer

  /** A JSON value (RFC 8259). Numbers keep their literal text: the handler
      never computes with them. */
  datatype Json =
    | JNull
    | JBool(b: bool)
    | JNumber(literal: string)
    | JString(s: string)
    | JArray(items: seq<Json>)
    | JObject(members: seq<(string, Json)>)

  /** Whatever a service reports when it fails; the handler only logs it. */
  datatype ServiceError = ServiceError(detail: string)

  /** An HTTP answer: a status code and a JSON body. */
  datatype Response = Response(status: nat, body: Json)

  /** The answer together with the prompts the generation service was sent,
      so that the calls the handler makes can be stated. */
  datatype Exchange = Exchange(response: Response, prompts: seq<string>)

  const StatusOk: nat := 200
  const StatusServerError: nat := 500

  /** The one message every hard failure is reported with. */
  const FailureMessage: string := "Failed to generate quiz questions"

  /** The answer to every hard failure. */
  const FailureResponse: Response := Response(StatusServerError, JObject([("error", JString(FailureMessage))]))

  /** The answer that carries a question list: a success, never the failure
      answer. */
  function QuizResponse(questions: Json): (response: Response)
    ensures response.status == StatusOk && response != FailureResponse
  {
    Response(StatusOk, JObject([("quizQuestions", questions)]))
  }

  /** The question list made of the sanitized completion: the parsed value,
      or the empty array when it does not parse. The list is empty exactly
      when the text does not parse or parses to the empty array, and any
      value the parser returns is passed on unchanged. */
  function ParseOrDegrade(parse: string -> Option<Json>, cleaned: string): (questions: Json)
    ensures questions == JArray([]) <==> parse(cleaned).None? || parse(cleaned) == Some(JArray([]))
    ensures parse(cleaned).Some? ==> questions == parse(cleaned).value
  {
    match parse(cleaned)
    case Some(value) => value
    case None => JArray([])
  }

  /** The prompt the generation service is sent for a transcript: the
      transcript can be read back from it. */
  function PromptFor(segments: seq<Segment>): (prompt: string)
    ensures TranscriptOf(prompt) == Some(Assemble(segments))
  {
    PromptRoundTrip(Assemble(segments), BuildPrompt(Assemble(segments)));
    BuildPrompt(Assemble(segments))
  }

  /** One of the services failed: the transcript fetch, or, after it, the
      generation call or reading the text of its response. */
  predicate HardFailure<M>(
    fetchTranscript: string -> Result<seq<Segment>, ServiceError>,
    generateContent: string -> Result<M, ServiceError>,
    responseText: M -> Result<string, ServiceError>,
    url: string)
  {
    || fetchTranscript(url).Failure?
    || generateContent(PromptFor(fetchTranscript(url).value)).Failure?
    || responseText(generateContent(PromptFor(fetchTranscript(url).value)).value).Failure?
  }

  /** The question handler for a request naming `url`. */
  function Handle<M>(
    fetchTranscript: string -> Result<seq<Segment>, ServiceError>,
    generateContent: string -> Result<M, ServiceError>,
    responseText: M -> Result<string, ServiceError>,
    parse: string -> Option<Json>,
    url: string): (x: Exchange)
    ensures x.response.status == StatusOk || x.response.status == StatusServerError
    ensures (x.response.status == StatusServerError)
              == HardFailure(fetchTranscript, generateContent, responseText, url)
    ensures x.response.status == StatusServerError ==> x.response == FailureResponse
    ensures x.prompts == [] <==> fetchTranscript(url).Failure?
    ensures fetchTranscript(url).Success? ==> x.prompts == [PromptFor(fetchTranscript(url).value)]
    ensures x.response.status == StatusOk ==>
              exists completion :: x.response == QuizResponse(ParseOrDegrade(parse, Sanitize(completion)))
  {
    match fetchTranscript(url)
    case Failure(_) => Exchange(FailureResponse, [])
    case Success(segments) =>
      var prompt := PromptFor(segments);
      match generateContent(prompt)
      case Failure(_) => Exchange(FailureResponse, [prompt])
      case Success(result) =>
        match responseText(result)
        case Failure(_) => Exchange(FailureResponse, [prompt])
        case Success(completion) =>
          Exchange(QuizResponse(ParseOrDegrade(parse, Sanitize(completion))), [prompt])
  }

  /** When the transcript cannot be fetched the generation service is never
      asked: the answer is the failure answer, and it is the same whatever the
      generation service and the parser would have done. */
  lemma FetchFailureShortCircuits<M1, M2>(
    fetchTranscript: string -> Result<seq<Segment>, ServiceError>,
    generate1: string -> Result<M1, ServiceError>, text1: M1 -> Result<string, ServiceError>,
    parse1: string -> Option<Json>,
    generate2: string -> Result<M2, ServiceError>, text2: M2 -> Result<string, ServiceError>,
    parse2: string -> Option<Json>,
    url: string)
    requires fetchTranscript(url).Failure?
    ensures Handle(fetchTranscript, generate1, text1, parse1, url)
            == Handle(fetchTranscript, generate2, text2, parse2, url)
            == Exchange(FailureResponse, [])
  {
  }

  /** A completion that does not parse is not an error: the answer is a
      success with an empty question list. */
  lemma MalformedCompletionDegrades<M>(
    fetchTranscript: string -> Result<seq<Segment>, ServiceError>,
    generateContent: string -> Result<M, ServiceError>,
    responseText: M -> Result<string, ServiceError>,
    parse: string -> Option<Json>,
    url: string, completion: string)
    requires !HardFailure(fetchTranscript, generateContent, responseText, url)
    requires responseText(generateContent(PromptFor(fetchTranscript(url).value)).value)
             == Success(completion)
    requires parse(Sanitize(completion)).None?
    ensures Handle(fetchTranscript, generateContent, responseText, parse, url).response
            == Response(StatusOk, JObject([("quizQuestions", JArray([]))]))
  {
  }

  /** A completion that parses is answered with the parsed value exactly as
      the parser returned it. Nothing checks that it is an array of question
      objects with four options and an answer among them. */
  lemma ParsedValuePassesThrough<M>(
    fetchTranscript: string -> Result<seq<Segment>, ServiceError>,
    generateContent: string -> Result<M, ServiceError>,
    responseText: M -> Result<string, ServiceError>,
    parse: string -> Option<Json>,
    url: string, completion: string, value: Json)
    requires !HardFailure(fetchTranscript, generateContent, responseText, url)
    requires responseText(generateContent(PromptFor(fetchTranscript(url).value)).value)
             == Success(completion)
    requires parse(Sanitize(completion)) == Some(value)
    ensures Handle(fetchTranscript, generateContent, responseText, parse, url).response
            == Response(StatusOk, JObject([("quizQuestions", value)]))
  {
  }

  /** A completion that already is the bare array the prompt asks for is
      parsed as it stands: with no backtick and no surrounding white space,
      sanitizing leaves it alone. */
  lemma CleanCompletionParsedAsIs<M>(
    fetchTranscript: string -> Result<seq<Segment>, ServiceError>,
    generateContent: string -> Result<M, ServiceError>,
    responseText: M -> Result<string, ServiceError>,
    parse: string -> Option<Json>,
    url: string, completion: string)
    requires !HardFailure(fetchTranscript, generateContent, responseText, url)
    requires responseText(generateContent(PromptFor(fetchTranscript(url).value)).value)
             == Success(completion)
    requires forall i :: 0 <= i < |completion| ==> completion[i] != '`'
    requires Whitespace.Trimmed(completion)
    ensures Handle(fetchTranscript, generateContent, responseText, parse, url).response
            == QuizResponse(ParseOrDegrade(parse, completion))
  {
    SanitizeWithoutBacktick(completion);
    ParsedOrDegradedAnswer(fetchTranscript, generateContent, responseText, parse, url, completion);
  }

  /** Once both services have answered, the answer is the question list made
      of the completion. */
  lemma ParsedOrDegradedAnswer<M>(
    fetchTranscript: string -> Result<seq<Segment>, ServiceError>,
    generateContent: string -> Result<M, ServiceError>,
    responseText: M -> Result<string, ServiceError>,
    parse: string -> Option<Json>,
    url: string, completion: string)
    requires !HardFailure(fetchTranscript, generateContent, responseText, url)
    requires responseText(generateContent(PromptFor(fetchTranscript(url).value)).value)
             == Success(completion)
    ensures Handle(fetchTranscript, generateContent, responseText, parse, url).response
            == QuizResponse(ParseOrDegrade(parse, Sanitize(completion)))
  {
  }
}
