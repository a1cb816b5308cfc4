/** The page: four pieces of state and the two handlers that change them.
    Each handler runs to completion as one step; the asynchronous gap
    inside `handleExtract` is split into BeginExtract and FinishExtract. */
module App {
  import opened Wrappers
  import opened JsStrings
  import opened CvTypes
  import opened GeminiService

  const FormatErrorMessage := "Please upload a valid file format (JPG, PNG, PDF, DOC, DOCX, TXT)."
  const NoFileMessage := "Please select a CV file first."
  const UnknownErrorMessage := "An unknown error occurred."

  /** The page's acceptance test: an image type, PDF, plain text, the
      legacy Word format or docx. Media types are compared exactly; the
      extensions on the lower-cased name. */
  predicate Accepts(f: File) {
    var name := ToLower(f.name);
    || StartsWith(f.mimeType, "image/")
    || f.mimeType == "application/pdf"
    || f.mimeType == "text/plain" || EndsWith(name, ".txt")
    || f.mimeType == MsWordType || EndsWith(name, ".doc")
    || f.mimeType == DocxType || EndsWith(name, ".docx")
  }

  /** The page lets every legacy Word file through, and the service then
      refuses each of them before any request. */
  lemma LegacyAcceptedButNotSent(f: File)
    requires IsLegacy(f)
    ensures Accepts(f) && RouteOf(f) == RejectLegacy
  {
  }

  /** Extensions are recognised in any casing. */
  lemma ExtensionCaseInsensitive(base: string, ext: string, mimeType: string, content: seq<byte>)
    requires ToLower(ext) in {".txt", ".doc", ".docx"}
    ensures Accepts(File(base + ext, mimeType, content))
  {
    ToLowerKeepsSuffix(base, ext);
  }

  /** Media types are not: an upper-case image type with an unknown
      extension is refused. */
  lemma MimeTypeCaseSensitive()
    ensures !Accepts(File("cv.png", "IMAGE/PNG", []))
  {
    var name := ToLower("cv.png");
    assert name == "cv.png";
    EndsWithLast(name, ".txt");
    EndsWithLast(name, ".doc");
    EndsWithLast(name, ".docx");
    assert !StartsWith("IMAGE/PNG", "image/") by {
      assert "IMAGE/PNG"[0] != "image/"[0];
    }
  }

  /** `err.message || 'An unknown error occurred.'` */
  function DisplayedError(message: string): (r: string)
    ensures r != ""
    ensures message != "" ==> r == message
  {
    if message == "" then UnknownErrorMessage else message
  }

  class Page {
    var file: Option<File>
    var extractedData: Option<ExtractedCVData>
    var isLoading: bool
    var error: Option<string>

    /** The initial state: nothing selected, nothing shown. */
    constructor ()
      ensures file == None && extractedData == None && !isLoading && error == None
    {
      file := None;
      extractedData := None;
      isLoading := false;
      error := None;
    }

    /** Between handler calls nothing is loading, and a result is only ever
        shown for a selected file. */
    ghost predicate Settled()
      reads this
    {
      !isLoading && (extractedData.Some? ==> file.Some?)
    }

    /** The extract button's enable rule (`disabled={!file || isLoading}`). */
    predicate ExtractEnabled()
      reads this
    {
      file.Some? && !isLoading
    }

    /** `handleFileChange`: no file changes nothing; an accepted file is
        selected and clears error and result; a refused one only sets the
        format error. */
    method HandleFileChange(selected: Option<File>)
      modifies this
      ensures isLoading == old(isLoading)
      ensures selected.None? ==>
        file == old(file) && extractedData == old(extractedData) && error == old(error)
      ensures selected.Some? && Accepts(selected.value) ==>
        file == selected && error == None && extractedData == None
      ensures selected.Some? && !Accepts(selected.value) ==>
        file == old(file) && extractedData == old(extractedData) && error == Some(FormatErrorMessage)
      ensures old(Settled()) ==> Settled()
    {
      if selected.Some? {
        if Accepts(selected.value) {
          file := selected;
          error := None;
          extractedData := None;
        } else {
          error := Some(FormatErrorMessage);
        }
      }
    }

    /** The synchronous start of `handleExtract`: without a file it only
        reports the missing file; otherwise it enters the loading state and
        clears error and result before the call. */
    method BeginExtract() returns (started: bool)
      modifies this
      ensures started <==> old(file).Some?
      ensures file == old(file)
      ensures !started ==>
        error == Some(NoFileMessage) && extractedData == old(extractedData) && isLoading == old(isLoading)
      ensures started ==> isLoading && error == None && extractedData == None
    {
      if file.None? {
        error := Some(NoFileMessage);
        return false;
      }
      isLoading := true;
      error := None;
      extractedData := None;
      started := true;
    }

    /** The continuation of `handleExtract` once the call settles: the
        result or the displayed error is stored, and the `finally` clears
        the loading flag. */
    method FinishExtract(outcome: Result<ExtractedCVData, string>)
      modifies this
      ensures file == old(file) && !isLoading
      ensures outcome.Success? ==>
        extractedData == Some(outcome.value) && error == old(error)
      ensures outcome.Failure? ==>
        error == Some(DisplayedError(outcome.error)) && extractedData == old(extractedData)
    {
      if outcome.Success? {
        extractedData := Some(outcome.value);
      } else {
        error := Some(DisplayedError(outcome.error));
      }
      isLoading := false;
    }

    /** `handleExtract` as one step. With a file, afterwards nothing is
        loading and exactly one of result and error is set: the extracted
        profile, or the message the service threw. */
    method HandleExtract(env: Env) returns (requests: seq<Request>)
      modifies this
      ensures file == old(file)
      ensures old(file).None? ==>
        && error == Some(NoFileMessage) && requests == []
        && extractedData == old(extractedData) && isLoading == old(isLoading)
      ensures old(file).Some? ==>
        var x := Extract(old(file).value, env);
        && !isLoading && requests == x.requests
        && (x.result.Success? ==> extractedData == Some(x.result.value) && error == None)
        && (x.result.Failure? ==> error == Some(x.result.error) && extractedData == None)
      ensures old(file).Some? ==> (extractedData.Some? <==> error.None?)
      ensures old(file).Some? && IsLegacy(old(file).value) ==>
        error == Some(LegacyMessage) && requests == []
      ensures old(Settled()) ==> Settled()
    {
      var started := BeginExtract();
      if !started {
        return [];
      }
      var outcome;
      outcome, requests := ExtractCVInfo(file.value, env);
      FinishExtract(outcome);
    }
  }

  /** Between handler calls the button is enabled exactly when a file is
      selected. */
  lemma EnabledExactlyWhenSelected(page: Page)
    requires page.Settled()
    ensures page.ExtractEnabled() <==> page.file.Some?
  {
  }

  /** A fresh page on which one file is chosen and, if the button is then
      enabled, extraction is clicked. A legacy Word file is accepted and
      then refused by the service without a request; a refused file leaves
      the button disabled. `enabled` is the button's state once the file
      has been chosen. */
  method ChooseThenExtract(f: File, env: Env)
    returns (enabled: bool, error: Option<string>, extracted: Option<ExtractedCVData>, requests: seq<Request>)
    ensures enabled <==> Accepts(f)
    ensures !Accepts(f) ==> error == Some(FormatErrorMessage) && extracted == None && requests == []
    ensures Accepts(f) ==> (extracted.Some? <==> error.None?) && |requests| <= 1
    ensures IsLegacy(f) ==> error == Some(LegacyMessage) && extracted == None && requests == []
    ensures extracted.Some? ==> |requests| == 1 && |requests[0].parts| == 2 && requests[0].parts[1] == TextPart(Prompt)
  {
    var page := new Page();
    page.HandleFileChange(Some(f));
    enabled := page.ExtractEnabled();
    if enabled {
      requests := page.HandleExtract(env);
      ExtractSpec(f, env);
    } else {
      requests := [];
    }
    error, extracted := page.error, page.extractedData;
  }
}
