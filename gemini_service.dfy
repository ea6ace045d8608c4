/** `removeBackground` (services/geminiService.ts): the request sent to the
    image model and the selection of the returned image from its response.
    The remote call is a function from request to outcome supplied by the
    caller; every failure becomes one generic error. */
module GeminiService {
  import opened Wrappers
  import opened Types

  const ModelName := "gemini-2.5-flash-image"
  const Instruction := "remove the background. return only the subject with a transparent background."
  const FailureMessage := "Gemini API request failed."

  datatype Modality = TextModality | ImageModality

  datatype RequestPart = ImagePart(part: GenerativePart) | TextPart(text: string)

  /** `generateContent`'s argument: model, content parts and response modalities. */
  datatype Request = Request(model: string, parts: seq<RequestPart>, responseModalities: seq<Modality>)

  /** The response, as far as it is read: candidates, each with optional
      content holding optional parts, each part with optional inline data. */
  datatype Part = Part(text: Option<string>, inlineData: Option<InlineData>)
  datatype Content = Content(parts: Option<seq<Part>>)
  datatype Candidate = Candidate(content: Option<Content>)
  datatype Response = Response(candidates: Option<seq<Candidate>>)

  /** The awaited remote call either answers or throws. */
  datatype RemoteOutcome = Responded(response: Response) | CallFailed

  /** Why a response was refused before the errors are collapsed: no first
      candidate, a candidate without content or parts (reading them throws),
      or no part carrying inline data. */
  datatype SelectionError = NoCandidates | MissingParts | NoImageData

  function BuildRequest(imagePart: GenerativePart): Request
  {
    Request(ModelName, [ImagePart(imagePart), TextPart(Instruction)], [ImageModality])
  }

  /** `parts.find(part => part.inlineData)`, as an index: the first part that
      has inline data, if any. */
  function FirstInlineIndex(parts: seq<Part>): (k: Option<nat>)
    ensures k.Some? ==> k.value < |parts| && parts[k.value].inlineData.Some?
    ensures k.Some? ==> forall j :: 0 <= j < k.value ==> parts[j].inlineData.None?
    ensures k.None? ==> forall j :: 0 <= j < |parts| ==> parts[j].inlineData.None?
  {
    if |parts| == 0 then None
    else if parts[0].inlineData.Some? then Some(0)
    else match FirstInlineIndex(parts[1..])
      case None => None
      case Some(i) => Some(i + 1)
  }

  /** The inline data of the first part with any, in the first candidate only. */
  function SelectImageData(response: Response): Result<string, SelectionError>
  {
    if response.candidates.None? || |response.candidates.value| == 0 then Err(NoCandidates)
    else
      var candidate := response.candidates.value[0];
      if candidate.content.None? || candidate.content.value.parts.None? then Err(MissingParts)
      else
        var parts := candidate.content.value.parts.value;
        match FirstInlineIndex(parts)
        case None => Err(NoImageData)
        case Some(k) => Ok(parts[k].inlineData.value.data)
  }

  /** `removeBackground`: send the image part and the instruction, asking for
      an image back, and return the selected base64 data; any failure,
      the remote call's own included, is reported as the one generic message. */
  function RemoveBackground(imagePart: GenerativePart, reply: Request -> RemoteOutcome): (r: Result<string, string>)
    ensures r.Err? ==> r.error == FailureMessage
    ensures reply(BuildRequest(imagePart)).CallFailed? ==> r.Err?
  {
    match reply(BuildRequest(imagePart))
    case CallFailed => Err(FailureMessage)
    case Responded(response) =>
      match SelectImageData(response)
      case Err(_) => Err(FailureMessage)
      case Ok(data) => Ok(data)
  }

  /** The only request made carries the image part followed by the fixed
      instruction, for the image model, asking for an image: replies that
      agree on that request give the same result. */
  lemma RequestShape(imagePart: GenerativePart, reply1: Request -> RemoteOutcome, reply2: Request -> RemoteOutcome)
    requires var req := Request("gemini-2.5-flash-image",
                                [ImagePart(imagePart), TextPart(Instruction)], [ImageModality]);
             reply1(req) == reply2(req)
    ensures RemoveBackground(imagePart, reply1) == RemoveBackground(imagePart, reply2)
  {
  }

  /** Success: the result is the inline data of the first part that has
      inline data in the first candidate. */
  lemma ReturnsFirstInlineData(imagePart: GenerativePart, reply: Request -> RemoteOutcome,
                               candidates: seq<Candidate>, parts: seq<Part>, k: nat)
    requires reply(BuildRequest(imagePart)) == Responded(Response(Some(candidates)))
    requires |candidates| > 0 && candidates[0] == Candidate(Some(Content(Some(parts))))
    requires k < |parts| && parts[k].inlineData.Some?
    requires forall j :: 0 <= j < k ==> parts[j].inlineData.None?
    ensures RemoveBackground(imagePart, reply) == Ok(parts[k].inlineData.value.data)
  {
  }

  /** Failure: the remote call throws, there is no candidate, the first
      candidate has no parts, or none of its parts has inline data; each
      yields the generic message. */
  lemma FailureCases(imagePart: GenerativePart, reply: Request -> RemoteOutcome)
    ensures var out := reply(BuildRequest(imagePart));
            var failed := out.CallFailed? || out.response.candidates.None? || |out.response.candidates.value| == 0
              || out.response.candidates.value[0].content.None?
              || out.response.candidates.value[0].content.value.parts.None?
              || (forall j :: 0 <= j < |out.response.candidates.value[0].content.value.parts.value| ==>
                    out.response.candidates.value[0].content.value.parts.value[j].inlineData.None?);
            failed <==> RemoveBackground(imagePart, reply) == Err(FailureMessage)
  {
  }

  /** Only the first candidate is consulted: responses whose first candidates
      agree give the same result, whatever follows. */
  lemma OnlyFirstCandidate(imagePart: GenerativePart, reply1: Request -> RemoteOutcome, reply2: Request -> RemoteOutcome,
                           first: Candidate, rest1: seq<Candidate>, rest2: seq<Candidate>)
    requires reply1(BuildRequest(imagePart)) == Responded(Response(Some([first] + rest1)))
    requires reply2(BuildRequest(imagePart)) == Responded(Response(Some([first] + rest2)))
    ensures RemoveBackground(imagePart, reply1) == RemoveBackground(imagePart, reply2)
  {
  }

  /** Parts after the first one with inline data are never looked at. */
  lemma {:induction false} LaterPartsIgnored(parts: seq<Part>, later: seq<Part>)
    requires FirstInlineIndex(parts).Some?
    ensures FirstInlineIndex(parts + later) == FirstInlineIndex(parts)
  {
    if parts[0].inlineData.None? {
      assert (parts + later)[1..] == parts[1..] + later;
      LaterPartsIgnored(parts[1..], later);
    }
  }
}
