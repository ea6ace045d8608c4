/** The editing session of App.tsx: four state slots (`originalImage`,
    `processedImage`, `isLoading`, `error`) driven by the upload, remove and
    clear handlers. Each asynchronous step (the reader's callback, the two
    awaits of a removal taken together) splits a handler into the step that
    runs before it and a separate completion event, so a session is a sequence
    of discrete events; `Apply` is the transition for one event and the class
    `AppState` performs the same transitions on mutable fields. */
module App {
  import opened Wrappers
  import opened Types
  import FileUtils
  import GeminiService

  const InvalidFileMessage := "Please upload a valid image file (PNG, JPG, etc.)."
  const NoImageMessage := "Please upload an image first."
  const ProcessingFailedMessage := "Failed to process image. The model may be unable to handle this request. Please try another image."
  const PngDataUrlPrefix := "data:image/png;base64,"
  const ImageTypePrefix := "image/"

  /** The four state slots. */
  datatype Session = Session(originalImage: Option<FileDetails>, processedImage: Option<string>,
                             isLoading: bool, error: Option<string>)

  const InitialSession := Session(None, None, false, None)

  /** The events that change the slots. */
  datatype Event =
    | ImageSelected(selected: Option<FileInfo>)   // handleImageChange, up to starting the read
    | FileRead(file: FileInfo, preview: string) // the reader's onloadend
    | RemoveRequested                           // handleRemoveBackground, up to its first await
    | RemovalSucceeded(resultBase64: string)    // both awaits resolved
    | RemovalFailed                             // either await rejected
    | Cleared                                   // handleClear

  /** `file.type.startsWith('image/')` */
  predicate IsImageType(mimeType: string)
  {
    ImageTypePrefix <= mimeType
  }

  /** The transition of one event. Removal has no busy check of its own, and
      a completion writes its result whatever happened in between. */
  function Apply(s: Session, e: Event): (r: Session)
    ensures r.isLoading != s.isLoading ==>
              (e.RemoveRequested? && r.isLoading)
              || ((e.RemovalSucceeded? || e.RemovalFailed? || e.Cleared?) && !r.isLoading)
    ensures r.originalImage != s.originalImage ==> e.ImageSelected? || e.FileRead? || e.Cleared?
  {
    match e
    case ImageSelected(file) =>
      if file.Some? && !IsImageType(file.value.mimeType) then
        s.(error := Some(InvalidFileMessage), originalImage := None, processedImage := None)
      else s
    case FileRead(file, preview) =>
      s.(originalImage := Some(FileDetails(file, preview)), processedImage := None, error := None)
    case RemoveRequested =>
      if s.originalImage.None? then s.(error := Some(NoImageMessage))
      else s.(isLoading := true, error := None, processedImage := None)
    case RemovalSucceeded(data) =>
      s.(processedImage := Some(PngDataUrlPrefix + data), isLoading := false)
    case RemovalFailed =>
      s.(error := Some(ProcessingFailedMessage), isLoading := false)
    case Cleared =>
      InitialSession
  }

  /** The events of a removal: its start and its completions. */
  predicate IsRemovalEvent(e: Event)
  {
    e.RemoveRequested? || e.RemovalSucceeded? || e.RemovalFailed?
  }

  /** A sequence of events applied in order; removals alone never change
      the loaded image. */
  function Run(s: Session, events: seq<Event>): (r: Session)
    ensures (forall i :: 0 <= i < |events| ==> IsRemovalEvent(events[i]))
            ==> r.originalImage == s.originalImage
    decreases |events|
  {
    if |events| == 0 then s else Run(Apply(s, events[0]), events[1..])
  }

  /** The completion event that the two awaits of a removal produce, given
      what the file reader returns for the pending file and how the remote
      model replies: success with the selected payload, or failure when the
      payload cannot be extracted or the model call fails. */
  function RemovalOutcome(file: FileInfo, readerResult: FileUtils.ReaderResult,
                          reply: GeminiService.Request -> GeminiService.RemoteOutcome): (e: Event)
    ensures e.RemovalSucceeded? || e.RemovalFailed?
    ensures e.RemovalSucceeded? <==>
              FileUtils.FileToGenerativePart(file, readerResult).Ok?
              && GeminiService.RemoveBackground(FileUtils.FileToGenerativePart(file, readerResult).value, reply).Ok?
    ensures e.RemovalSucceeded? ==>
              e.resultBase64 == GeminiService.RemoveBackground(FileUtils.FileToGenerativePart(file, readerResult).value, reply).value
  {
    match FileUtils.FileToGenerativePart(file, readerResult)
    case Err(_) => RemovalFailed
    case Ok(part) =>
      match GeminiService.RemoveBackground(part, reply)
      case Err(_) => RemovalFailed
      case Ok(data) => RemovalSucceeded(data)
  }

  /** Caller-side guard: the Remove Background button is disabled without an
      image or while a removal is loading (components/ActionButton.tsx). */
  predicate RemoveButtonEnabled(s: Session)
  {
    s.originalImage.Some? && !s.isLoading
  }

  predicate KnownError(error: Option<string>)
  {
    error.None? || error.value in {InvalidFileMessage, NoImageMessage, ProcessingFailedMessage}
  }

  /** What every reachable session satisfies: nothing is shown as processed
      while loading, a processed image is always a PNG data URL, and the
      error is one of the fixed messages. */
  predicate Valid(s: Session)
  {
    (s.isLoading ==> s.processedImage.None?)
    && (s.processedImage.Some? ==> PngDataUrlPrefix <= s.processedImage.value)
    && KnownError(s.error)
  }

  lemma InitialValid()
    ensures Valid(InitialSession)
  {
  }

  lemma ApplyPreservesValid(s: Session, e: Event)
    requires Valid(s)
    ensures Valid(Apply(s, e))
  {
  }

  /** Every session reached from a valid one by any events is valid. */
  lemma {:induction false} RunPreservesValid(s: Session, events: seq<Event>)
    requires Valid(s)
    ensures Valid(Run(s, events))
    decreases |events|
  {
    if |events| > 0 {
      ApplyPreservesValid(s, events[0]);
      RunPreservesValid(Apply(s, events[0]), events[1..]);
    }
  }

  /** Running two event sequences one after the other is running their
      concatenation. */
  lemma {:induction false} RunConcat(s: Session, first: seq<Event>, second: seq<Event>)
    ensures Run(s, first + second) == Run(Run(s, first), second)
    decreases |first|
  {
    if |first| > 0 {
      assert (first + second)[0] == first[0];
      assert (first + second)[1..] == first[1..] + second;
      RunConcat(Apply(s, first[0]), first[1..], second);
    } else {
      assert first + second == second;
    }
  }

  /** Two events in a row. */
  lemma RunPair(s: Session, a: Event, b: Event)
    ensures Run(s, [a, b]) == Apply(Apply(s, a), b)
  {
    assert [a, b][1..] == [b];
    assert [b][1..] == [];
    assert Run(Apply(s, a), [b]) == Run(Apply(Apply(s, a), b), []);
  }

  /** No file: nothing changes. */
  lemma NoFileIsNoOp(s: Session)
    ensures Apply(s, ImageSelected(None)) == s
  {
  }

  /** A non-image file sets the error, drops both images and leaves loading
      as it was. */
  lemma NonImageFileRejected(s: Session, file: FileInfo)
    requires !IsImageType(file.mimeType)
    ensures var t := Apply(s, ImageSelected(Some(file)));
            t.error == Some(InvalidFileMessage) && t.originalImage.None? && t.processedImage.None?
            && t.isLoading == s.isLoading
  {
  }

  /** An image file changes nothing until its read completes; then it is the
      original image with its preview, and the result and error are cleared. */
  lemma ImageFileLoaded(s: Session, file: FileInfo, preview: string)
    requires IsImageType(file.mimeType)
    ensures Apply(s, ImageSelected(Some(file))) == s
    ensures var t := Run(s, [ImageSelected(Some(file)), FileRead(file, preview)]);
            t.originalImage == Some(FileDetails(file, preview)) && t.processedImage.None? && t.error.None?
            && t.isLoading == s.isLoading
  {
    RunPair(s, ImageSelected(Some(file)), FileRead(file, preview));
  }

  /** Removing with no image only sets the error. */
  lemma RemoveWithoutImage(s: Session)
    requires s.originalImage.None?
    ensures Apply(s, RemoveRequested) == s.(error := Some(NoImageMessage))
  {
  }

  /** Starting a removal with an image sets loading and clears the error and
      the result, even while another removal is loading: the handler has no
      busy check. */
  lemma RemoveStarts(s: Session)
    requires s.originalImage.Some?
    ensures var t := Apply(s, RemoveRequested);
            t.isLoading && t.error.None? && t.processedImage.None? && t.originalImage == s.originalImage
  {
  }

  /** Through the enabled button a removal always starts, and never while one
      is already loading. */
  lemma EnabledButtonStartsRemoval(s: Session)
    requires RemoveButtonEnabled(s)
    ensures !s.isLoading && Apply(s, RemoveRequested).isLoading
    ensures !RemoveButtonEnabled(Apply(s, RemoveRequested))
  {
  }

  /** A started removal that succeeds shows `data:image/png;base64,` followed
      by the payload, with no error; loading ends. */
  lemma RemovalSuccess(s: Session, payload: string)
    requires s.originalImage.Some?
    ensures var t := Run(s, [RemoveRequested, RemovalSucceeded(payload)]);
            t.processedImage == Some(PngDataUrlPrefix + payload) && t.error.None? && !t.isLoading
  {
    RunPair(s, RemoveRequested, RemovalSucceeded(payload));
  }

  /** A started removal that fails shows the generic message and no result;
      loading ends. */
  lemma RemovalFailure(s: Session)
    requires s.originalImage.Some?
    ensures var t := Run(s, [RemoveRequested, RemovalFailed]);
            t.error == Some(ProcessingFailedMessage) && t.processedImage.None? && !t.isLoading
  {
    RunPair(s, RemoveRequested, RemovalFailed);
  }

  /** End to end: a data URL `header,payload` for the pending file and a
      model reply whose first candidate's first inline-data part holds
      `data` produce exactly `data:image/png;base64,` + `data`. */
  lemma RemovalEndToEnd(s: Session, header: string, payload: string,
                        reply: GeminiService.Request -> GeminiService.RemoteOutcome,
                        candidates: seq<GeminiService.Candidate>, parts: seq<GeminiService.Part>, k: nat)
    requires s.originalImage.Some?
    requires ',' !in header && ',' !in payload && payload != ""
    requires var part := GenerativePart(InlineData(payload, s.originalImage.value.file.mimeType));
             reply(GeminiService.BuildRequest(part)) == GeminiService.Responded(GeminiService.Response(Some(candidates)))
    requires |candidates| > 0 && candidates[0] == GeminiService.Candidate(Some(GeminiService.Content(Some(parts))))
    requires k < |parts| && parts[k].inlineData.Some?
    requires forall j :: 0 <= j < k ==> parts[j].inlineData.None?
    ensures var file := s.originalImage.value.file;
            var t := Run(s, [RemoveRequested,
                             RemovalOutcome(file, FileUtils.StringResult(header + "," + payload), reply)]);
            t.processedImage == Some(PngDataUrlPrefix + parts[k].inlineData.value.data)
            && t.error.None? && !t.isLoading
  {
    var file := s.originalImage.value.file;
    RunPair(s, RemoveRequested, RemovalOutcome(file, FileUtils.StringResult(header + "," + payload), reply));
    FileUtils.GenerativePartRoundTrip(file, header, payload);
    GeminiService.ReturnsFirstInlineData(GenerativePart(InlineData(payload, file.mimeType)), reply, candidates, parts, k);
  }

  /** A reader result that is not a string, or a data URL from which no
      payload can be extracted (no comma, or nothing between the first comma
      and the next one or the end), fails the removal before the model is
      called. */
  lemma ExtractionFailureFailsRemoval(file: FileInfo, readerResult: FileUtils.ReaderResult,
                                      reply: GeminiService.Request -> GeminiService.RemoteOutcome)
    requires readerResult.OtherResult? || FileUtils.ExtractPayload(readerResult.text).Err?
    ensures RemovalOutcome(file, readerResult, reply) == RemovalFailed
  {
  }

  /** Clearing resets all four slots whatever the state, and clearing twice
      is clearing once. */
  lemma ClearResets(s: Session)
    ensures Apply(s, Cleared) == Session(None, None, false, None)
    ensures Run(s, [Cleared, Cleared]) == Run(s, [Cleared])
  {
    RunPair(s, Cleared, Cleared);
    assert [Cleared][1..] == [];
  }

  /** Whatever happened before, a final clear leaves the initial session. */
  lemma ClearAfterAnything(s: Session, events: seq<Event>)
    ensures Run(s, events + [Cleared]) == InitialSession
  {
    RunConcat(s, events, [Cleared]);
    assert [Cleared][1..] == [];
  }

  /** A removal that completes after a clear still writes its result: the
      cleared session shows a processed image with no original one. */
  lemma StaleSuccessAfterClear(s: Session, payload: string)
    ensures Run(s, [Cleared, RemovalSucceeded(payload)])
            == Session(None, Some(PngDataUrlPrefix + payload), false, None)
  {
    RunPair(s, Cleared, RemovalSucceeded(payload));
  }

  /** The session as mutable state, one method per event. */
  class AppState {
    var originalImage: Option<FileDetails>
    var processedImage: Option<string>
    var isLoading: bool
    var error: Option<string>

    function State(): Session
      reads this
    {
      Session(originalImage, processedImage, isLoading, error)
    }

    constructor ()
      ensures State() == InitialSession && Valid(State())
    {
      originalImage := None;
      processedImage := None;
      isLoading := false;
      error := None;
    }

    /** `handleImageChange`: reports whether a read of the file was started;
        the read's completion is `OnFileLoaded`. */
    method HandleImageChange(file: Option<FileInfo>) returns (readStarted: bool)
      requires Valid(State())
      modifies this
      ensures State() == Apply(old(State()), ImageSelected(file)) && Valid(State())
      ensures readStarted <==> file.Some? && IsImageType(file.value.mimeType)
    {
      readStarted := false;
      if file.Some? {
        if !IsImageType(file.value.mimeType) {
          error := Some(InvalidFileMessage);
          originalImage := None;
          processedImage := None;
          return;
        }
        readStarted := true;
      }
    }

    /** The reader's `onloadend` for a started read. */
    method OnFileLoaded(file: FileInfo, preview: string)
      requires Valid(State())
      modifies this
      ensures State() == Apply(old(State()), FileRead(file, preview)) && Valid(State())
    {
      originalImage := Some(FileDetails(file, preview));
      processedImage := None;
      error := None;
    }

    /** `handleRemoveBackground` up to its first await; returns the file the
        pending removal works on, or none when no removal started. */
    method HandleRemoveBackground() returns (pending: Option<FileInfo>)
      requires Valid(State())
      modifies this
      ensures State() == Apply(old(State()), RemoveRequested) && Valid(State())
      ensures pending.Some? <==> old(originalImage).Some?
      ensures pending.Some? ==> pending.value == old(originalImage).value.file
    {
      if originalImage.None? {
        error := Some(NoImageMessage);
        return None;
      }
      pending := Some(originalImage.value.file);
      isLoading := true;
      error := None;
      processedImage := None;
    }

    /** The Remove Background button's click, which the button only allows
        when enabled. */
    method ClickRemoveButton() returns (pending: Option<FileInfo>)
      requires Valid(State()) && RemoveButtonEnabled(State())
      modifies this
      ensures State() == Apply(old(State()), RemoveRequested) && Valid(State())
      ensures pending == Some(old(originalImage).value.file) && isLoading
    {
      pending := HandleRemoveBackground();
    }

    /** The try block's last step followed by the finally block. */
    method OnRemovalSucceeded(resultBase64: string)
      requires Valid(State())
      modifies this
      ensures State() == Apply(old(State()), RemovalSucceeded(resultBase64)) && Valid(State())
    {
      processedImage := Some(PngDataUrlPrefix + resultBase64);
      isLoading := false;
    }

    /** The catch block followed by the finally block. */
    method OnRemovalFailed()
      requires Valid(State())
      modifies this
      ensures State() == Apply(old(State()), RemovalFailed) && Valid(State())
    {
      error := Some(ProcessingFailedMessage);
      isLoading := false;
    }

    /** The two awaits of a pending removal of `file`, with the reader's
        result and the model's reply as inputs, then the matching completion. */
    method CompleteRemoval(file: FileInfo, readerResult: FileUtils.ReaderResult,
                           reply: GeminiService.Request -> GeminiService.RemoteOutcome)
      requires Valid(State())
      modifies this
      ensures State() == Apply(old(State()), RemovalOutcome(file, readerResult, reply)) && Valid(State())
    {
      var imagePart := FileUtils.FileToGenerativePart(file, readerResult);
      if imagePart.Err? {
        OnRemovalFailed();
        return;
      }
      var resultBase64 := GeminiService.RemoveBackground(imagePart.value, reply);
      if resultBase64.Err? {
        OnRemovalFailed();
        return;
      }
      OnRemovalSucceeded(resultBase64.value);
    }

    /** `handleClear` (the file input's reset is left out). */
    method HandleClear()
      requires Valid(State())
      modifies this
      ensures State() == Apply(old(State()), Cleared) && Valid(State())
    {
      originalImage := None;
      processedImage := None;
      error := None;
      isLoading := false;
    }
  }
}
