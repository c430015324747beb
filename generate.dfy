/** The whole of `main` in image-gen/generate.ts: parse the arguments, validate them and build
    the request, call the model, and either save the first image or report why there is none.

    The outside world comes in as parameters: `apiKey` is `GEMINI_API_KEY` from the
    environment, `files` maps each existing path to its contents in base64, `isoNow` is the
    clock's `toISOString()`, and `generate` is the model call, which either throws with a
    message or returns a response. */
module Generate {
  import opened Wrappers
  import opened Args
  import opened Requests
  import opened Hints
  import opened Responses

  datatype ApiResult = Thrown(message: string) | Responded(response: Response)

  /** How a run ends. Every outcome but `ImageSaved` ends with `process.exit(1)`. A failed
      call carries the model that was asked for, the error message, the advice chosen for it
      and, with the model-availability advice, the model to try instead. */
  datatype Outcome =
    | Rejected(error: UsageError)
    | GenerationFailed(model: string, message: string, hint: Option<Hint>, suggestedModel: Option<string>)
    | NoImageReturned(refusal: Option<string>)
    | ImageSaved(outDir: string, fileName: string, data: string)

  /** The process exit status of an outcome. */
  function ExitCode(o: Outcome): (code: int)
    ensures code == 0 <==> o.ImageSaved?
    ensures code == 0 || code == 1
  {
    if o.ImageSaved? then 0 else 1
  }

  /** `main`: validation first, then at most one model call, then the extraction. `sent` is
      the request handed to the model, if one was. */
  method Run(argv: seq<string>, apiKey: Option<string>, files: map<string, string>, isoNow: string,
             generate: Request -> ApiResult)
    returns (outcome: Outcome, sent: Option<Request>)
    ensures var built := BuildRequest(ArgsOf(Tokens(argv)), apiKey, files);
      && (outcome.Rejected? <==> built.Err?)
      && (built.Err? ==> outcome.error == built.error && sent.None?)
      && (built.Ok? ==> sent == Some(built.value))
    ensures sent.Some? && generate(sent.value).Thrown? ==>
      var message := generate(sent.value).message;
      var hint := ClassifyHint(message);
      outcome == GenerationFailed(sent.value.model, message, hint,
                                  if hint == Some(ModelUnavailable) then Some(FallbackModel) else None)
    ensures sent.Some? && generate(sent.value).Responded? ==>
      var cands := Candidates(generate(sent.value).response);
      var args := ArgsOf(Tokens(argv));
      && (outcome.ImageSaved? <==> AnyImage(cands))
      && (outcome.ImageSaved? ==>
            outcome.outDir == args.outDir && outcome.fileName == FileName(isoNow, args.prompt)
            && exists c, p :: IsFirstImage(cands, c, p) && outcome.data == ImageDataAt(cands, c, p))
      && (!AnyImage(cands) ==> outcome == NoImageReturned(FallbackText(cands)))
    ensures ExitCode(outcome) == 0 <==>
      (sent.Some? && generate(sent.value).Responded? && AnyImage(Candidates(generate(sent.value).response)))
  {
    var args := ParseArgs(argv);
    var built := BuildRequest(args, apiKey, files);
    if built.Err? {
      return Rejected(built.error), None;
    }
    var request := built.value;
    sent := Some(request);
    var result := generate(request);
    if result.Thrown? {
      var hint := ClassifyHint(result.message);
      var suggestion := if hint == Some(ModelUnavailable) then Some(FallbackModel) else None;
      return GenerationFailed(request.model, result.message, hint, suggestion), sent;
    }
    var extraction := Extract(result.response, args.prompt, args.outDir, isoNow);
    if extraction.Saved? {
      outcome := ImageSaved(extraction.outDir, extraction.fileName, extraction.data);
    } else {
      outcome := NoImageReturned(extraction.refusal);
    }
  }

  /** A run that sends a request has passed every check of the validation, in order. */
  lemma SentRequestPassedChecks(argv: seq<string>, apiKey: Option<string>, files: map<string, string>, request: Request)
    requires BuildRequest(ArgsOf(Tokens(argv)), apiKey, files) == Ok(request)
    ensures forall c :: c in CheckOrder ==> Passes(c, ArgsOf(Tokens(argv)), apiKey, files)
    ensures request.model == ArgsOf(Tokens(argv)).model
  {
    ValidationFollowsCheckOrder(ArgsOf(Tokens(argv)), apiKey, files);
  }
}
