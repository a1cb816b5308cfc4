/** The extraction service: the legacy-format guard, the routing of a file
    to a text part or an inline binary part, the request that carries it,
    and the mapping of every failure to the message the page shows. The
    browser, the text extractor, the model endpoint and the JSON parser are
    given as the functions of an `Env`. */
module GeminiService {
  import opened Wrappers
  import opened JsStrings
  import opened CvTypes

  newtype byte = x: int | 0 <= x < 256

  /** A browser `File`: its name, its declared media type (possibly empty)
      and its bytes. */
  datatype File = File(name: string, mimeType: string, content: seq<byte>)

  /** What a `throw` inside the service can carry: an `Error` object with a
      message, or any other value. */
  datatype Thrown = ErrorObject(message: string) | NonErrorValue

  /** One entry of the request's `parts` array. `data` is None where the
      source would put `undefined`. */
  datatype Part =
    | TextPart(text: string)
    | InlineData(mimeType: string, data: Option<string>)

  datatype Request = Request(model: string, parts: seq<Part>)

  /** The outside world of `extractCVInfo`:
      - extractRawText: `file.arrayBuffer()` followed by mammoth's raw text
        extraction;
      - readAsDataUrl: `FileReader.readAsDataURL` (`onload` or `onerror`);
      - generateContent: the model call, yielding `response.text`;
      - parseJson: `JSON.parse` followed by the unchecked cast. */
  datatype Env = Env(
    extractRawText: seq<byte> -> Result<string, Thrown>,
    readAsDataUrl: File -> Result<string, Thrown>,
    generateContent: Request -> Result<string, Thrown>,
    parseJson: string -> Result<ExtractedCVData, Thrown>)

  const MsWordType := "application/msword"
  const DocxType := "application/vnd.openxmlformats-officedocument.wordprocessingml.document"
  const ModelName := "gemini-2.5-flash"

  /** The phrase by which the catch block recognises the legacy error. */
  const LegacyMarker := ".doc format is not supported"

  const LegacyMessage := "The classic " + LegacyMarker + " as it is a legacy format. Please re-save the file as a .docx or PDF for best results."

  const GenericMessage := "Failed to extract information from the CV. Please check the console for details."

  const Prompt := "You are an expert HR assistant. Your task is to analyze the provided CV document (which could be an image, PDF, or text document) and extract specific information into a structured JSON format. Be as accurate as possible. Follow the provided schema precisely.\n\n- Calculate the candidate's age based on their Date of Birth (D.O.B) and the current year.\n- Determine if they have a driver's license and their own transport. For the user's template, we will assume they have their own transport if they have a license.\n- Extract all work history and qualifications.\n- If information like salary or notice period isn't available, use a sensible default as described in the schema.\n- Format durations exactly as they appear in the CV."

  // ---------------------------------------------------------------------
  // Classification and routing
  // ---------------------------------------------------------------------

  /** The legacy Word format, by exact media type or by case-insensitive
      `.doc` extension. */
  predicate IsLegacy(f: File) {
    f.mimeType == MsWordType || EndsWith(ToLower(f.name), ".doc")
  }

  /** The Office Open XML word format, by exact media type or by
      case-insensitive `.docx` extension. */
  predicate IsDocx(f: File) {
    f.mimeType == DocxType || EndsWith(ToLower(f.name), ".docx")
  }

  datatype Route = RejectLegacy | ExtractText | InlineBinary

  /** Where a file goes: the legacy test comes first, then the docx test;
      everything else, whatever its type, is sent inline. */
  function RouteOf(f: File): (r: Route)
    ensures r == RejectLegacy <==> IsLegacy(f)
    ensures r == ExtractText <==> !IsLegacy(f) && IsDocx(f)
    ensures r == InlineBinary <==> !IsLegacy(f) && !IsDocx(f)
  {
    if IsLegacy(f) then RejectLegacy
    else if IsDocx(f) then ExtractText
    else InlineBinary
  }

  /** A name ending in `.docx`, in any casing, never counts as legacy by
      name, so such a file is extracted as text unless typed as msword. */
  lemma DocxNameIsNotLegacyName(f: File)
    requires EndsWith(ToLower(f.name), ".docx")
    ensures !EndsWith(ToLower(f.name), ".doc")
    ensures f.mimeType != MsWordType ==> RouteOf(f) == ExtractText
  {
    EndsWithLast(ToLower(f.name), ".docx");
    EndsWithLast(ToLower(f.name), ".doc");
  }

  /** The msword media type wins over a `.docx` name. */
  lemma MsWordTypeBeatsDocxName(f: File)
    requires f.mimeType == MsWordType
    ensures IsDocx(f) ==> RouteOf(f) == RejectLegacy
  {
  }

  // ---------------------------------------------------------------------
  // fileToBase64: stripping the data-URL prefix
  // ---------------------------------------------------------------------

  /** `result.split(',')[1]`: the text between the first comma and the next
      one (or the end); `undefined` when there is no comma. */
  function StripDataUrlPrefix(url: string): (r: Option<string>)
  {
    var pieces := Split(url, ",");
    if |pieces| >= 2 then Some(pieces[1]) else None
  }

  /** For a data URL `<header>,<payload>` whose parts hold no comma, exactly
      the payload is kept. */
  lemma StripDataUrlPrefixKeepsPayload(header: string, payload: string)
    requires !Contains(header, ",") && !Contains(payload, ",")
    ensures StripDataUrlPrefix(header + "," + payload) == Some(payload)
  {
    var xs := [header, payload];
    HeaderEndsBeforeComma(header);
    JoinThenSplit(xs, ",");
    assert Join(xs, ",") == header + "," + payload by {
      assert xs[1..] == [payload];
    }
  }

  /** A comma-free header is cleanly delimited by the comma after it. */
  lemma HeaderEndsBeforeComma(header: string)
    requires !Contains(header, ",")
    ensures EndsBeforeSeparator(header, ",")
  {
    var s := header + ",";
    assert s[|header|..] == ",";
    forall j | 0 <= j < |header|
      ensures !StartsWith(s[j..], ",")
    {
      assert !StartsWith(header[j..], ",");
      assert s[j..][..1] == header[j..][..1];
    }
    IndexOfIs(s, ",", |header|);
  }

  /** Without a comma the source resolves `undefined`; with one there is
      always a payload, and it never holds a comma. */
  lemma StripDataUrlPrefixDefined(url: string)
    ensures StripDataUrlPrefix(url).Some? <==> Contains(url, ",")
    ensures StripDataUrlPrefix(url).Some? ==> !Contains(StripDataUrlPrefix(url).value, ",")
  {
    SplitPiecesFree(url, ",");
  }

  // ---------------------------------------------------------------------
  // The payload part and the error mapping
  // ---------------------------------------------------------------------

  /** The first entry of `parts` for a non-legacy file, or what was thrown
      while preparing it. */
  function Payload(f: File, env: Env): (r: Result<Part, Thrown>)
    requires !IsLegacy(f)
  {
    if RouteOf(f) == ExtractText then
      match env.extractRawText(f.content)
      case Success(text) => Success(TextPart(text))
      case Failure(e) => Failure(e)
    else
      match env.readAsDataUrl(f)
      case Success(url) => Success(InlineData(f.mimeType, StripDataUrlPrefix(url)))
      case Failure(e) => Failure(e)
  }

  /** A docx file becomes one text part holding the extracted raw text;
      any other non-legacy file one inline part whose media type is the
      declared type, verbatim (even when empty), and whose data is the
      stripped data URL. */
  lemma PayloadShape(f: File, env: Env)
    requires !IsLegacy(f)
    ensures IsDocx(f) && env.extractRawText(f.content).Success? ==>
      Payload(f, env) == Success(TextPart(env.extractRawText(f.content).value))
    ensures !IsDocx(f) && env.readAsDataUrl(f).Success? ==>
      Payload(f, env).Success? && Payload(f, env).value.InlineData? &&
      Payload(f, env).value.mimeType == f.mimeType &&
      Payload(f, env).value.data == StripDataUrlPrefix(env.readAsDataUrl(f).value)
    ensures Payload(f, env).Failure? <==>
      (if IsDocx(f) then env.extractRawText(f.content).Failure? else env.readAsDataUrl(f).Failure?)
  {
  }

  /** The part that is built follows the route: text for a file routed to
      text extraction, inline data under the declared type for a file
      routed inline, unless preparing it threw. */
  lemma PayloadFollowsRoute(f: File, env: Env)
    requires RouteOf(f) != RejectLegacy
    ensures RouteOf(f) == ExtractText ==>
      Payload(f, env).Failure? || Payload(f, env).value.TextPart?
    ensures RouteOf(f) == InlineBinary ==>
      Payload(f, env).Failure? ||
      (Payload(f, env).value.InlineData? && Payload(f, env).value.mimeType == f.mimeType)
  {
  }

  /** The catch block: an `Error` whose message mentions the legacy format
      is rethrown unchanged; anything else becomes the generic message. */
  function MessageOf(e: Thrown): (m: string)
    ensures e.ErrorObject? && Contains(e.message, LegacyMarker) ==> m == e.message
    ensures !(e.ErrorObject? && Contains(e.message, LegacyMarker)) ==> m == GenericMessage
    ensures m != "" && (m == GenericMessage || Contains(m, LegacyMarker))
  {
    match e
    case ErrorObject(message) =>
      if Contains(message, LegacyMarker) then message else GenericMessage
    case NonErrorValue => GenericMessage
  }

  /** The legacy message carries the marker, so even if it were thrown
      inside the try block it would pass through unchanged. */
  lemma LegacyMessagePassesThrough()
    ensures Contains(LegacyMessage, LegacyMarker)
    ensures MessageOf(ErrorObject(LegacyMessage)) == LegacyMessage
  {
    ContainsAt(LegacyMessage, LegacyMarker, |"The classic "|);
  }

  // ---------------------------------------------------------------------
  // extractCVInfo
  // ---------------------------------------------------------------------

  /** What one call of `extractCVInfo` produces: its result (the value or
      the message of the error it throws) and the model requests it issued. */
  datatype Extraction = Extraction(result: Result<ExtractedCVData, string>, requests: seq<Request>)

  /** The request for a prepared payload: the payload, then the prompt. */
  function RequestFor(payload: Part): (r: Request)
    ensures r.model == ModelName && |r.parts| == 2
    ensures r.parts[0] == payload && r.parts[1] == TextPart(Prompt)
  {
    Request(ModelName, [payload, TextPart(Prompt)])
  }

  /** What happens once the request is sent: the response text is trimmed
      and parsed, and a failure at either step is mapped by the catch
      block. */
  function Respond(env: Env, request: Request): Result<ExtractedCVData, string>
  {
    match env.generateContent(request)
    case Failure(e) => Failure(MessageOf(e))
    case Success(text) =>
      match env.parseJson(Trim(text))
      case Failure(e) => Failure(MessageOf(e))
      case Success(data) => Success(data)
  }

  /** The specification of `extractCVInfo` as a function of the file and
      the outside world. */
  ghost function Extract(f: File, env: Env): Extraction
  {
    if IsLegacy(f) then Extraction(Failure(LegacyMessage), [])
    else
      match Payload(f, env)
      case Failure(e) => Extraction(Failure(MessageOf(e)), [])
      case Success(part) => Extraction(Respond(env, RequestFor(part)), [RequestFor(part)])
  }

  /** What every extraction promises: the legacy guard issues nothing, at
      most one request is issued and exactly when the payload was
      prepared, it carries the payload and then the prompt, a success is
      the parse of the trimmed response, and a failure message is the
      generic one or carries the legacy marker. */
  lemma ExtractSpec(f: File, env: Env)
    ensures var x := Extract(f, env);
      && (IsLegacy(f) ==> x.result == Failure(LegacyMessage) && x.requests == [])
      && |x.requests| <= 1
      && (x.requests == [] ==> x.result.Failure?)
      && (x.requests != [] ==>
        && !IsLegacy(f)
        && |x.requests[0].parts| == 2
        && x.requests[0].parts[1] == TextPart(Prompt)
        && Payload(f, env) == Success(x.requests[0].parts[0]))
      && (!IsLegacy(f) ==> (x.requests == [] <==> Payload(f, env).Failure?))
      && (x.result.Success? ==>
        && env.generateContent(x.requests[0]).Success?
        && env.parseJson(Trim(env.generateContent(x.requests[0]).value)) == Success(x.result.value))
      && (x.result.Failure? ==>
        x.result.error != "" && (x.result.error == GenericMessage || Contains(x.result.error, LegacyMarker)))
  {
    LegacyMessagePassesThrough();
  }

  /** `extractCVInfo`: the guard outside the try block, the `parts` array
      built by two pushes, one request, the parse of the trimmed response,
      and the catch-block mapping. */
  method ExtractCVInfo(f: File, env: Env) returns (result: Result<ExtractedCVData, string>, requests: seq<Request>)
    ensures Extraction(result, requests) == Extract(f, env)
    ensures IsLegacy(f) ==> result == Failure(LegacyMessage) && requests == []
    ensures |requests| <= 1
    ensures requests == [] ==> result.Failure?
    ensures requests != [] ==>
      && !IsLegacy(f)
      && |requests[0].parts| == 2
      && requests[0].parts[1] == TextPart(Prompt)
      && Payload(f, env) == Success(requests[0].parts[0])
    ensures !IsLegacy(f) ==> (requests == [] <==> Payload(f, env).Failure?)
    ensures result.Success? ==>
      && env.generateContent(requests[0]).Success?
      && env.parseJson(Trim(env.generateContent(requests[0]).value)) == Success(result.value)
    ensures result.Failure? ==>
      result.error != "" && (result.error == GenericMessage || Contains(result.error, LegacyMarker))
  {
    ExtractSpec(f, env);
    if IsLegacy(f) {
      return Failure(LegacyMessage), [];
    }
    requests := [];
    var parts: seq<Part> := [];
    if IsDocx(f) {
      assert RouteOf(f) == ExtractText;
      var extracted := env.extractRawText(f.content);
      if extracted.Failure? {
        return Failure(MessageOf(extracted.error)), [];
      }
      parts := parts + [TextPart(extracted.value)];
    } else {
      assert RouteOf(f) == InlineBinary;
      var url := env.readAsDataUrl(f);
      if url.Failure? {
        return Failure(MessageOf(url.error)), [];
      }
      parts := parts + [InlineData(f.mimeType, StripDataUrlPrefix(url.value))];
    }
    ghost var payload := parts[0];
    assert Payload(f, env) == Success(payload);
    parts := parts + [TextPart(Prompt)];
    var request := Request(ModelName, parts);
    assert request == RequestFor(payload);
    requests := requests + [request];
    var response := env.generateContent(request);
    if response.Failure? {
      return Failure(MessageOf(response.error)), requests;
    }
    var parsed := env.parseJson(Trim(response.value));
    if parsed.Failure? {
      return Failure(MessageOf(parsed.error)), requests;
    }
    result := Success(parsed.value);
  }
}
