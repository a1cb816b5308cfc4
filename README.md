# CV information extractor — a Dafny model of its core

The application takes one uploaded CV (an image, a PDF, plain text or a
Word file), sends it to a generative model with a fixed prompt, and renders
the structured profile it gets back as a letter that can be copied. This
project models the three pieces of sequential logic in it:

- **The extraction service** (`services/geminiService.ts`, module
  `GeminiService`): the legacy `.doc` guard that runs before anything else,
  the routing of `.docx` files to extracted text and of every other file to
  one inline binary part tagged with its declared media type, the `parts`
  array built by two pushes (payload, then prompt), the single model
  request, the parse of the trimmed response, the catch-block mapping of
  failures to one generic message (a message mentioning the legacy format
  passes through), and the stripping of the data-URL prefix in
  `fileToBase64`. The browser, the Word text extractor, the model endpoint
  and `JSON.parse` are the four functions of an `Env` value; each returns a
  value or what was thrown. `ExtractCVInfo` is an imperative method proved
  against the ghost function `Extract`, which the page's methods use in
  their contracts.
- **The page's state** (`App.tsx`, module `App`): class `Page` with the four
  fields `file`, `extractedData`, `isLoading` and `error`, the acceptance
  test and state updates of `handleFileChange`, the start and completion of
  `handleExtract`, and the enable rule of the extract button. The page
  accepts `.doc` files and the service refuses them: the model keeps that
  disagreement (`LegacyAcceptedButNotSent`, `ChooseThenExtract`).
- **The candidate summary** (`components/ResultDisplay.tsx`, module
  `ResultDisplay`): `formattedText` as a pure function, with the per-job and
  per-qualification blocks, the blank-line joins, Yes/No for the two flags
  and the age as a decimal number. Its partners are the split round trips
  of the two sections and a decoder that reads age and flags back off any
  letter.

Module `JsStrings` models the string built-ins the core calls (`includes`,
`endsWith`, `startsWith`, `toLowerCase`, `split`, `join`, `trim`, and the
rendering of an integral number). `split` and `join` are proved inverse
to each other, the number rendering is read back by a digit parser, `trim`
is proved idempotent, `toLowerCase` is proved to keep an extension a
suffix, and `includes` is characterised by the leftmost occurrence.
`CvTypes` mirrors the records of `types.ts`; `age` is an `int`.

What the code does at its edges:

- No file size is checked anywhere: the page only shows the text "up to
  10MB".
- The service never rejects a file as an invalid format: every file that
  is neither legacy nor docx is sent inline with its declared media type,
  even an empty one.
- A failure to read or text-extract the file ends in the same generic
  message as a failure of the model call.
- When the payload cannot be prepared, no request is issued at all; a
  request is issued exactly when the file is not legacy and its payload was
  prepared.
- The experience section splits back into its jobs only when the history
  is non-empty, every company and position is non-empty and no field holds
  a newline: an empty company or position puts a blank line inside a block
  (`EmptyCompanyBreaksRoundTrip`, `EmptyPositionBreaksRoundTrip`). An empty
  work history renders as an empty section, which splits into one empty
  block (`EmptyHistorySplitsToOneBlock`).

## Model

| member | source | states |
|---|---|---|
| `GeminiService.IsLegacy` | services/geminiService.ts:69-70 | the legacy test: the media type is exactly `application/msword` or the lower-cased name ends in `.doc` |
| `GeminiService.IsDocx` | services/geminiService.ts:78 | the docx test: the media type is exactly the Office Open XML word type or the lower-cased name ends in `.docx` |
| `GeminiService.RouteOf` | services/geminiService.ts:69-92 | a file is refused as legacy exactly when its type is msword or its lower-cased name ends in `.doc`; otherwise it is text-extracted exactly when its type is the docx type or its name ends in `.docx`; every other file goes inline |
| `GeminiService.DocxNameIsNotLegacyName` | services/geminiService.ts:69-80 | a name ending in `.docx` in any casing never matches the `.doc` test, so such a file is text-extracted unless typed msword |
| `GeminiService.MsWordTypeBeatsDocxName` | services/geminiService.ts:70-78 | the msword media type is refused as legacy even when the name says `.docx`: the legacy test runs first |
| `GeminiService.Payload` | services/geminiService.ts:78-92 | the first entry of `parts` for a non-legacy file: the extracted raw text for a docx file, otherwise the declared media type with the stripped data URL; or what was thrown while preparing it |
| `GeminiService.PayloadFollowsRoute` | services/geminiService.ts:78-92 | a file routed to text extraction yields a text part and a file routed inline yields inline data under its declared media type, unless preparing the part threw |
| `GeminiService.PayloadShape` | services/geminiService.ts:78-92 | a docx file yields one text part holding exactly the extracted raw text; any other non-legacy file yields one inline part whose media type is the declared type verbatim and whose data is the stripped data URL; preparing fails exactly when the extractor or the reader fails |
| `GeminiService.StripDataUrlPrefix` | services/geminiService.ts:131-133 | `result.split(',')[1]`: the second comma-separated piece of the data URL, or undefined when there is no comma |
| `GeminiService.StripDataUrlPrefixKeepsPayload` | services/geminiService.ts:131-133 | for `<header>,<payload>` with no comma in either part, exactly the payload is kept |
| `GeminiService.StripDataUrlPrefixDefined` | services/geminiService.ts:133 | the stripped value is defined exactly when the URL holds a comma, and then holds no comma itself |
| `GeminiService.MessageOf` | services/geminiService.ts:117-123 | an `Error` whose message contains ".doc format is not supported" is rethrown with that message; every other thrown value becomes the one generic message; the result is never empty |
| `GeminiService.LegacyMessagePassesThrough` | services/geminiService.ts:71 | the legacy message contains the marker phrase, so the catch block would pass it through unchanged |
| `GeminiService.Respond` | services/geminiService.ts:104-123 | after the request is sent: the parse of the trimmed response text, or the catch block's message for a failure of the call or of the parse |
| `GeminiService.Extract` | services/geminiService.ts:66-124 | the whole of `extractCVInfo` as a function of the file and the outside world: the legacy guard, the payload, the one request and its response, with the requests issued |
| `GeminiService.RequestFor` | services/geminiService.ts:76-111 | the request names the model and has exactly two parts: the payload first, the fixed prompt second |
| `GeminiService.ExtractSpec` | services/geminiService.ts:66-124 | every extraction: a legacy file fails with the legacy message and issues nothing; at most one request, issued exactly when the payload was prepared, carrying payload then prompt; a success is the parse of the trimmed response; a failure message is the generic one or carries the legacy marker |
| `GeminiService.ExtractCVInfo` | services/geminiService.ts:66-124 | a legacy file fails with the legacy message and no request; otherwise at most one request, issued exactly when the payload was prepared, carrying payload then prompt; success means the model answered and the parse of the trimmed text is returned unchecked; every failure message is non-empty and is the generic message or carries the legacy marker |
| `JsStrings.StartsWith` | App.tsx:19 | `startsWith`: the prefix is no longer than the string and equals its head; the empty prefix always matches |
| `JsStrings.EndsWith` | App.tsx:21-23 | `endsWith`: the suffix is no longer than the string and equals its tail; the empty suffix always matches |
| `JsStrings.Contains` | services/geminiService.ts:119 | `includes`: the searched text occurs somewhere in the string, found as its leftmost occurrence |
| `JsStrings.Split` | services/geminiService.ts:133 | JavaScript `split` with a non-empty separator: the pieces between leftmost non-overlapping occurrences, at least one piece |
| `JsStrings.Join` | components/ResultDisplay.tsx:17-24 | JavaScript `join`: the pieces with the separator between them, and the empty string for no pieces |
| `JsStrings.ToLower` | App.tsx:17 | `toLowerCase`: same length, each character lower-cased (ASCII letters only) |
| `JsStrings.IntToString` | components/ResultDisplay.tsx:47 | `${data.age}`: an optional minus sign and the decimal digits, ending in a digit |
| `JsStrings.IndexOfFrom` | services/geminiService.ts:119 | the result is the leftmost occurrence at or after the start position, or none exists there |
| `JsStrings.IndexOf` | services/geminiService.ts:119 | the result is the leftmost occurrence of the searched text, or it occurs nowhere (`includes`) |
| `JsStrings.SplitPiecesFree` | services/geminiService.ts:133 | no piece of a split holds the separator |
| `JsStrings.SplitThenJoin` | services/geminiService.ts:133 | joining the pieces of a split with the same separator gives back the original string |
| `JsStrings.JoinThenSplit` | components/ResultDisplay.tsx:12-24 | splitting a join gives back the pieces when every piece but the last is cleanly delimited and the last holds no separator |
| `JsStrings.ToLowerKeepsSuffix` | App.tsx:17-23 | a lower-cased name ends in the lower case of its extension, whatever the extension's casing |
| `JsStrings.Trim` | services/geminiService.ts:113 | the trimmed text is an infix of the response that neither starts nor ends with JavaScript whitespace, and everything removed around it is whitespace |
| `JsStrings.TrimIdempotent` | services/geminiService.ts:113 | trimming twice is trimming once |
| `JsStrings.NatToStringRoundTrip` | components/ResultDisplay.tsx:47 | reading the rendered decimal digits back gives the number |
| `App.Accepts` | App.tsx:16-25 | the acceptance test: an `image/` type, the PDF type, plain text by type or `.txt`, msword by type or `.doc`, or docx by type or `.docx`, the names lower-cased |
| `App.LegacyAcceptedButNotSent` | App.tsx:22-28 | every legacy Word file is accepted by the page and refused by the service's routing |
| `App.ExtensionCaseInsensitive` | App.tsx:17-25 | a name ending in `.txt`, `.doc` or `.docx` in any casing is accepted whatever its media type |
| `App.MimeTypeCaseSensitive` | App.tsx:19-25 | media types are compared exactly: `IMAGE/PNG` with a `.png` name is refused |
| `App.DisplayedError` | App.tsx:68 | the shown error is never empty and is the thrown message whenever that is non-empty |
| `App.Page.constructor` | App.tsx:8-11 | the page starts with no file, no result, not loading and no error |
| `App.Page.HandleFileChange` | App.tsx:14-33 | no file changes nothing; an accepted file is selected and clears error and result; a refused file sets the format message and leaves file and result; the loading flag is untouched and the settled invariant is kept |
| `App.Page.BeginExtract` | App.tsx:55-62 | without a file only the "select a file" error is set; with one, loading is on and error and result are cleared before the call |
| `App.Page.FinishExtract` | App.tsx:64-71 | a result is stored, or the displayed error is set; either way loading ends and the file stays |
| `App.Page.HandleExtract` | App.tsx:54-72 | with a file, afterwards nothing is loading and exactly one of result and error is set, as the extraction decided, with the requests it issued; a legacy file ends with the legacy message and no request; without a file only the error changes |
| `App.Page.ExtractEnabled` | App.tsx:113 | the extract button is enabled when a file is selected and nothing is loading |
| `App.EnabledExactlyWhenSelected` | App.tsx:113 | between handler calls the extract button is enabled exactly when a file is selected |
| `App.ChooseThenExtract` | App.tsx:94-113 | on a fresh page, the extract button is enabled after choosing a file exactly when the file is accepted; a refused file ends with the format message and no request; an accepted one ends with exactly one of result and error and at most one request; a legacy file ends with the legacy message and no request |
| `ResultDisplay.JobLines` | components/ResultDisplay.tsx:15 | the four lines of one job: duration, company, position and `**Reason for leaving: ` with the reason |
| `ResultDisplay.JobBlock` | components/ResultDisplay.tsx:15 | one job's lines joined by single newlines |
| `ResultDisplay.QualificationLines` | components/ResultDisplay.tsx:22 | the two lines of one qualification: institution, then `course \| year` |
| `ResultDisplay.QualificationBlock` | components/ResultDisplay.tsx:22 | one qualification's lines joined by a single newline |
| `ResultDisplay.ExperienceSection` | components/ResultDisplay.tsx:12-17 | the job blocks joined by blank lines |
| `ResultDisplay.QualificationsSection` | components/ResultDisplay.tsx:19-24 | the qualification blocks joined by blank lines |
| `ResultDisplay.FormattedText` | components/ResultDisplay.tsx:11-62 | `formattedText`: the letter template with the name, both sections, notice period, salary, age and the two Yes/No flags filled in |
| `ResultDisplay.JobBlocks` | components/ResultDisplay.tsx:12-16 | one block per job, in the order of the work history, none dropped or reordered |
| `ResultDisplay.QualificationBlocks` | components/ResultDisplay.tsx:19-23 | one block per qualification, in list order |
| `ResultDisplay.YesNo` | components/ResultDisplay.tsx:49-51 | a flag renders as `Yes` exactly when true and `No` exactly when false |
| `ResultDisplay.LetterSections` | components/ResultDisplay.tsx:26-40 | the letter begins with the greeting, the candidate's name verbatim, the introduction, the experience section, the qualifications heading and the qualifications section, in that order |
| `ResultDisplay.OpeningStartsLetter` | components/ResultDisplay.tsx:26-45 | the letter starts with the whole text up to the salary: greeting, name, both sections, then the notice period after its label and the salary requirement after its label, each verbatim |
| `ResultDisplay.LetterFrame` | components/ResultDisplay.tsx:26-62 | the letter starts with "Dear Sarah" and ends with "Kind Regards" |
| `ResultDisplay.ExperienceSectionRoundTrip` | components/ResultDisplay.tsx:12-17 | for a non-empty history of jobs with newline-free fields and non-empty company and position, splitting the section on blank lines gives one block per job in order, and each block splits on newlines into duration, company, position and the reason line |
| `ResultDisplay.QualificationsSectionRoundTrip` | components/ResultDisplay.tsx:19-24 | for a non-empty list of qualifications with newline-free fields, the section splits into one block per qualification in order, each into the institution and the `course \| year` line |
| `ResultDisplay.EmptyCompanyBreaksRoundTrip` | components/ResultDisplay.tsx:15 | a job with an empty company yields a section that splits into more than one block |
| `ResultDisplay.EmptyPositionBreaksRoundTrip` | components/ResultDisplay.tsx:15 | a job with an empty position yields a section that splits into more than one block |
| `ResultDisplay.EmptyHistorySplitsToOneBlock` | components/ResultDisplay.tsx:12-17 | an empty work history gives an empty section, which splits into one empty block |
| `ResultDisplay.ReadIntRoundTrip` | components/ResultDisplay.tsx:47 | an integer rendered after text that does not end in a digit or a minus sign is read back exactly, sign included |
| `ResultDisplay.DetailsRoundTrip` | components/ResultDisplay.tsx:47-51 | from every letter, whatever the other fields hold, the age and both flags are read back exactly |

## Left out

- The model call (`ai.models.generateContent`), the Word text extractor (mammoth with `file.arrayBuffer`), `FileReader.readAsDataURL` and `JSON.parse` are not modelled: they are the functions of `Env`, which return a value or what was thrown. No base64 property is claimed; only the prefix stripping is modelled.
- A response whose `text` is undefined (so that `trim` throws) is represented as a failure of `generateContent`.
- A parsed JSON value that does not have the shape of the profile cannot be represented: `parseJson` returns a profile or a thrown value, matching the unchecked cast. So the page's "exactly one of result and error" (`App.Page.HandleExtract`, `App.ChooseThenExtract`) holds only for responses that parse to an object: in the code a response text `null` parses to `null`, which is stored as the result after the error was cleared, leaving the page with neither.
- The `responseSchema` object and the generation config are declarations sent to the model and never checked by the code; they are not modelled.
- `console.error` logging in the catch block is not modelled.
- `handleCopy` (clipboard write, the `copied` flag and its 2-second timer), drag-over styling, JSX markup, and the Loader and ProgressBar components are UI only.
- Asynchronous interleaving is not modelled: `HandleExtract` runs as one step, so a stale extraction that finishes after a newer one cannot overwrite its state.
- The file's size is not modelled: nothing in the code reads it.
- `JsStrings.ToLower`: lower-cases ASCII letters only; JavaScript's full Unicode case mapping is not modelled. The extension and type tests compare against ASCII text only.
- `JsStrings.IntToString`: renders integers only; a non-integral age, exponent notation from 1e21 on, and `-0` are not modelled; magnitudes above 2^53 are not all representable as Numbers, and JavaScript prints them with the shortest round-trip digits rather than the exact ones rendered here.
- `ResultDisplay.ExperienceSectionRoundTrip`: holds only for non-empty work histories whose jobs have newline-free fields and non-empty company and position, because other inputs do not split back.
