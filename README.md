# Background-removal front end: a Dafny model of its core

The application is a React page that lets a user upload an image, sends it
to a hosted image model with an instruction to remove the background, and
shows the returned PNG. This project models the four deterministic pieces
of it and proves properties about them:

- **The session** (`app.dfy`, module `App`): the four state slots
  `originalImage`, `processedImage`, `isLoading` and `error` of App.tsx and
  the upload, remove and clear handlers. Each asynchronous step (the
  reader's callback, the two awaits of a removal taken together) is split
  into the step before it and a completion event (file read done, removal
  succeeded, removal failed). `Apply` gives the transition of one event, `Run` that of
  a sequence, and the class `AppState` performs the same transitions on
  mutable fields, one method per event. The remove handler has no busy
  check; the button's disabled condition is modelled separately as a
  caller-side guard (`RemoveButtonEnabled`, `ClickRemoveButton`). A removal
  completing after a clear still writes its result, as in the source.
- **Payload extraction** (`file_utils.dfy`, module `FileUtils`): JavaScript's
  `split(',')` as `Split`, with its inverse `Join`, and the extraction of
  the piece after the first comma with its two rejection checks.
- **Crop geometry** (`image_utils.dfy`, module `ImageUtils`): the per-axis
  scale from displayed to natural pixels, the zero-size check, the canvas
  size, the `drawImage` rectangles and the PNG output type, over exact
  `real` arithmetic. Whether the browser supplies a 2D context and a blob
  is an input.
- **Response selection** (`gemini_service.dfy`, module `GeminiService`): the
  request (image part, then the fixed instruction, image modality) and the
  choice of the first inline-data part of the first candidate. The remote
  call is an input: a total function from request to outcome. Every failure
  becomes "Gemini API request failed.".

`types.dfy` holds the records of types.ts, `wrappers.dfy` the `Option` and
`Result` types.

Choices where the code's behaviour is kept:
- The crop is read as displayed-image pixels, whatever its `unit` says;
  there is no percentage reading (`ImageUtils.UnitIgnored`).
- Rejecting a non-image file leaves `isLoading` as it was.
- Auto-detection, text extraction, quality levels, progress ticking and
  output-format conversion are not wired into App.tsx, so they are not
  modelled.

## Model

| member | source | states |
|---|---|---|
| `FileUtils.Split` | utils/fileUtils.ts:11 | `split(',')` yields at least one piece and no piece contains the separator |
| `FileUtils.JoinSplit` | utils/fileUtils.ts:11 | joining the pieces of a split with the separator gives the original string back |
| `FileUtils.SplitJoin` | utils/fileUtils.ts:11 | splitting the join of a non-empty list of separator-free pieces gives the list back |
| `FileUtils.ExtractPayload` | utils/fileUtils.ts:11-14 | an extracted payload is non-empty and comma-free; every rejection carries "Could not extract base64 data from file." |
| `FileUtils.NoCommaRejected` | utils/fileUtils.ts:11-14 | input with no comma is rejected |
| `FileUtils.PayloadBetweenFirstCommas` | utils/fileUtils.ts:11-14 | with the first comma at i and the next comma or the end at j, the result is the text strictly between them, rejected exactly when that text is empty |
| `FileUtils.ExtractRoundTrip` | utils/fileUtils.ts:11-20 | for a comma-free header and a non-empty comma-free payload p, extracting from header + "," + p returns p |
| `FileUtils.FileToGenerativePart` | utils/fileUtils.ts:7-21 | a non-string reader result is rejected before any splitting; a string succeeds exactly when extraction does; on success the media type is the file's own and the data is the extracted payload, non-empty and comma-free |
| `FileUtils.GenerativePartRoundTrip` | utils/fileUtils.ts:15-20 | reading header,payload yields exactly that payload with the file's declared media type |
| `ImageUtils.ScaleX` | utils/imageUtils.ts:44 | the x scale times the displayed width is the natural width |
| `ImageUtils.ScaleY` | utils/imageUtils.ts:45 | the y scale times the displayed height is the natural height |
| `ImageUtils.PixelCrop` | utils/imageUtils.ts:47-50 | no contract of its own; characterised by `PixelCropProportional`, `NaturalSizeIsIdentity`, `PixelCropInverse`, `ZeroScaledIff` and `InsideStaysInside` |
| `ImageUtils.GetCroppedImage` | utils/imageUtils.ts:37-85 | on success the file has the given name and type image/png, the canvas has non-zero size, and the draw copies a source rectangle to (0,0) at the same width and height |
| `ImageUtils.PixelCropProportional` | utils/imageUtils.ts:44-50 | scaleX times displayed width is the natural width (likewise y), and each pixel field stands to its crop field as natural size to displayed size |
| `ImageUtils.NaturalSizeIsIdentity` | utils/imageUtils.ts:44-50 | shown at natural size, the pixel rectangle equals the crop rectangle |
| `ImageUtils.PixelCropInverse` | utils/imageUtils.ts:44-50 | dividing each pixel field by its axis scale gives the crop field back |
| `ImageUtils.ZeroScaledIff` | utils/imageUtils.ts:49-52 | the scaled width (height) is zero exactly when the crop's or the natural width (height) is |
| `ImageUtils.ZeroCropRejectedFirst` | utils/imageUtils.ts:52-62 | a zero-size crop is rejected with "Crop dimensions cannot be zero." whether or not a context or blob would have been obtained |
| `ImageUtils.CroppedImageOutcome` | utils/imageUtils.ts:52-83 | zero size, then missing context, then missing blob decide the error in that order; success exactly when none applies |
| `ImageUtils.CroppedImageGeometry` | utils/imageUtils.ts:56-74 | canvas width and height are the crop's width and height in natural pixels; the draw's source rectangle is the scaled crop |
| `ImageUtils.UnitIgnored` | utils/imageUtils.ts:47-50 | the crop's unit does not affect the result |
| `ImageUtils.InsideStaysInside` | utils/imageUtils.ts:44-50 | a crop inside the displayed image gives a source rectangle inside the natural image |
| `GeminiService.FirstInlineIndex` | services/geminiService.ts:31 | `find` returns the first part with inline data, or none when no part has any |
| `GeminiService.BuildRequest` | services/geminiService.ts:13-24 | no contract of its own; characterised by `RequestShape` |
| `GeminiService.SelectImageData` | services/geminiService.ts:26-37 | no contract of its own; characterised through `RemoveBackground` by `ReturnsFirstInlineData`, `FailureCases`, `OnlyFirstCandidate` and `LaterPartsIgnored` |
| `GeminiService.RemoveBackground` | services/geminiService.ts:11-42 | every failure, including the remote call's own, is "Gemini API request failed." |
| `GeminiService.RequestShape` | services/geminiService.ts:13-24 | the result depends only on the reply to the request for model gemini-2.5-flash-image carrying the image part then the fixed instruction, with image response modality |
| `GeminiService.ReturnsFirstInlineData` | services/geminiService.ts:26-34 | the result is the inline data of the first part with inline data in the first candidate |
| `GeminiService.FailureCases` | services/geminiService.ts:26-41 | the call fails exactly when the remote call throws, there is no candidate, the first candidate has no parts, or none of its parts has inline data |
| `GeminiService.OnlyFirstCandidate` | services/geminiService.ts:26 | responses whose first candidates agree give the same result, whatever candidates follow |
| `GeminiService.LaterPartsIgnored` | services/geminiService.ts:31 | parts after the first with inline data do not change the selection |
| `App.Apply` | App.tsx:18-65 | loading changes only by a removal start (to true) or a completion or clear (to false); the loaded image changes only by an upload event or a clear; further characterised by the App lemmas below |
| `App.Run` | App.tsx:18-65 | a sequence of removal starts and completions never changes the loaded image |
| `App.RemovalOutcome` | App.tsx:49-58 | the awaits of a removal end in success exactly when extraction and the model call both succeed, otherwise in failure; a success carries exactly the data the model call returned |
| `App.InitialValid` | App.tsx:13-16 | the initial slots satisfy the session invariant |
| `App.ApplyPreservesValid` | App.tsx:18-65 | every event keeps the invariant: no processed image while loading, a processed image is a PNG data URL, the error is one of the fixed messages |
| `App.RunPreservesValid` | App.tsx:18-65 | every sequence of events keeps that invariant |
| `App.NoFileIsNoOp` | App.tsx:19 | selecting no file changes no slot |
| `App.NonImageFileRejected` | App.tsx:20-25 | a non-image file (`IsImageType` false: the type does not start with "image/") sets the invalid-file error, nulls both images and leaves loading unchanged |
| `App.ImageFileLoaded` | App.tsx:26-34 | an image file (`IsImageType`) changes nothing until its read completes; then the original image is the file with its preview and the result and error are null |
| `App.RemoveWithoutImage` | App.tsx:40-43 | removing without an image only sets "Please upload an image first." |
| `App.RemoveStarts` | App.tsx:45-47 | starting a removal with an image sets loading and clears error and result, even while already loading |
| `App.EnabledButtonStartsRemoval` | components/ActionButton.tsx:16 | through the enabled button (`RemoveButtonEnabled`: an image is loaded and nothing is loading) a removal always starts and the button is then disabled |
| `App.RemovalSuccess` | App.tsx:45-57 | a started removal that succeeds shows "data:image/png;base64," followed by the payload, with no error and loading ended |
| `App.RemovalFailure` | App.tsx:45-58 | a started removal that fails shows the generic failure message and no result, with loading ended |
| `App.RemovalEndToEnd` | App.tsx:49-52 | a data URL header,payload and a reply whose first candidate's first inline part holds d show exactly "data:image/png;base64," + d |
| `App.ExtractionFailureFailsRemoval` | App.tsx:49-55 | a non-string reader result, or a data URL from which no payload can be extracted, fails the removal |
| `App.ClearResets` | App.tsx:61-65 | clearing nulls all four slots whatever the state, and clearing twice equals clearing once |
| `App.ClearAfterAnything` | App.tsx:61-65 | any event sequence ending in a clear leaves the initial session |
| `App.StaleSuccessAfterClear` | App.tsx:52 | a removal completing after a clear still writes its result |
| `App.AppState.constructor` | App.tsx:13-16 | all slots start null or false |
| `App.AppState.HandleImageChange` | App.tsx:18-37 | performs the file-selection transition and reports whether a read started (exactly for a file satisfying `IsImageType`) |
| `App.AppState.OnFileLoaded` | App.tsx:27-34 | performs the read-completion transition |
| `App.AppState.HandleRemoveBackground` | App.tsx:39-47 | performs the removal-start transition with no busy check and returns the pending file exactly when an image was loaded |
| `App.AppState.ClickRemoveButton` | components/ActionButton.tsx:16 | under the button's enabled condition (`RemoveButtonEnabled`), a removal of the loaded file starts |
| `App.AppState.OnRemovalSucceeded` | App.tsx:52-57 | performs the success transition |
| `App.AppState.OnRemovalFailed` | App.tsx:53-58 | performs the failure transition |
| `App.AppState.CompleteRemoval` | App.tsx:49-58 | runs extraction and the model call and applies the matching completion |
| `App.AppState.HandleClear` | App.tsx:61-65 | performs the clear transition |

## Left out

- FileReader, the network call, `console.error` logging and the module-load `API_KEY` check (services/geminiService.ts:5-9) are I/O; the reader's result and the model's reply are inputs.
- The reader's `onerror` path in `fileToGenerativePart` (utils/fileUtils.ts:22): a read failure is I/O and is not modelled.
- `App.AppState.OnFileLoaded`: takes the preview as a string; a failed read that still fires `onloadend` with a null result is not modelled.
- The DOM file-input reset in `handleClear` (App.tsx:66-70) is DOM I/O.
- Interleavings of asynchronous callbacks are not reasoned about; each completion is a discrete event that may arrive at any point (so overlapping removals and reads finishing after a clear are expressible, not scheduled).
- React's batching of state setters is not modelled; the setters of one handler step are applied in order.
- `convertPngToJpeg` and the canvas, context and `toBlob` machinery are browser pixel compositing and encoding; only the values passed to them are modelled.
- `ImageUtils.GetCroppedImage`: arithmetic is exact `real`; JavaScript's floating point and the canvas's truncation of a non-integer width or height are not modelled.
- `ImageUtils.GetCroppedImage`: the output type is the requested "image/png"; the blob's own reported type is not modelled.
- The rendering components (ImageUploader, ResultDisplay, OcrResult, ActionButton, FormatSelector, QualitySelector, Spinner, Header) are rendering and event wiring; only ActionButton's disabled condition is modelled.
