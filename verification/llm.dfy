/** `llm.py`: one call to the Gemini SDK, the text `call_llm` extracts from
    the response, the labels it gives Google API errors, and the model-id
    listing. The SDK itself is not modelled: what `generate_content` and
    `list_models` return or raise is an input. */
module Llm {
  import opened Wrappers
  import opened Strings

  /** One part of a candidate's content; `text` is absent on non-text parts. */
  datatype Part = Part(text: Option<string>)

  /** A response candidate; `parts` is its `content.parts`, possibly unset. */
  datatype Candidate = Candidate(parts: Option<seq<Part>>)

  /** What `generate_content` returns: the `text` shortcut and the candidates. */
  datatype Response = Response(text: Option<string>, candidates: seq<Candidate>)

  /** The exceptions that can reach or leave `call_llm`, all of them
      subclasses of Python's `Exception`. The first five are Google API
      errors: `GoogleAPICallError` and four of its subclasses, with
      `message` standing for `str(e)`. */
  datatype Exception =
    | NotFound(message: string)
    | PermissionDenied(message: string)
    | ResourceExhausted(message: string)
    | InvalidArgument(message: string)
    | OtherApiError(message: string)
    | RuntimeError(message: string)
    | OtherError(message: string)

  /** `generate_content` either returns a response or raises. */
  datatype SdkOutcome = Returned(response: Response) | Raised(error: Exception)

  /** The exception classes named in `call_llm`'s `except` clauses. */
  datatype ExceptClass =
    | NotFoundClass
    | PermissionDeniedClass
    | ResourceExhaustedClass
    | InvalidArgumentClass
    | GoogleApiCallErrorClass

  predicate IsGoogleApiError(e: Exception)
  {
    e.NotFound? || e.PermissionDenied? || e.ResourceExhausted? || e.InvalidArgument?
    || e.OtherApiError?
  }

  /** `isinstance(e, cls)`: every specific class is also a `GoogleAPICallError`. */
  predicate IsInstance(e: Exception, cls: ExceptClass)
  {
    match cls
    case NotFoundClass => e.NotFound?
    case PermissionDeniedClass => e.PermissionDenied?
    case ResourceExhaustedClass => e.ResourceExhausted?
    case InvalidArgumentClass => e.InvalidArgument?
    case GoogleApiCallErrorClass => IsGoogleApiError(e)
  }

  /** `call_llm`'s `except` clauses, in the order they are written. */
  const Clauses: seq<ExceptClass> :=
    [NotFoundClass, PermissionDeniedClass, ResourceExhaustedClass, InvalidArgumentClass,
     GoogleApiCallErrorClass]

  /** Python's handler search: the first clause whose class `e` belongs to. */
  function FirstMatch(clauses: seq<ExceptClass>, e: Exception): (m: Option<nat>)
    ensures m.Some? ==> m.value < |clauses| && IsInstance(e, clauses[m.value])
    ensures m.Some? ==> forall k :: 0 <= k < m.value ==> !IsInstance(e, clauses[k])
    ensures m.None? ==> forall k :: 0 <= k < |clauses| ==> !IsInstance(e, clauses[k])
  {
    if |clauses| == 0 then None
    else if IsInstance(e, clauses[0]) then Some(0)
    else
      match FirstMatch(clauses[1..], e)
      case None => None
      case Some(i) => Some(i + 1)
  }

  /** The message of the `RuntimeError` each clause raises. */
  function ClauseLabel(cls: ExceptClass, modelId: string, e: Exception): string
  {
    match cls
    case NotFoundClass => "MODEL_NOT_FOUND:" + modelId
    case PermissionDeniedClass => "PERMISSION_DENIED_API_OR_KEY"
    case ResourceExhaustedClass => "QUOTA_EXCEEDED"
    case InvalidArgumentClass => "BAD_REQUEST_PAYLOAD"
    case GoogleApiCallErrorClass => "GOOGLE_API_ERROR:" + e.message
  }

  /** What leaves `call_llm`'s `try` statement when `e` is raised inside it:
      the first matching clause's labelled `RuntimeError`, or `e` itself. */
  function Relabel(modelId: string, e: Exception): (r: Exception)
    ensures e.NotFound? ==> r == RuntimeError("MODEL_NOT_FOUND:" + modelId)
    ensures e.PermissionDenied? ==> r == RuntimeError("PERMISSION_DENIED_API_OR_KEY")
    ensures e.ResourceExhausted? ==> r == RuntimeError("QUOTA_EXCEEDED")
    ensures e.InvalidArgument? ==> r == RuntimeError("BAD_REQUEST_PAYLOAD")
    ensures e.OtherApiError? ==> r == RuntimeError("GOOGLE_API_ERROR:" + e.message)
    ensures !IsGoogleApiError(e) ==> r == e
    ensures !IsGoogleApiError(r)
  {
    ClauseIndex(e);
    match FirstMatch(Clauses, e)
    case Some(i) => RuntimeError(ClauseLabel(Clauses[i], modelId, e))
    case None => e
  }

  /** Which of `call_llm`'s clauses catches each kind of exception. */
  lemma ClauseIndex(e: Exception)
    ensures e.NotFound? ==> FirstMatch(Clauses, e) == Some(0)
    ensures e.PermissionDenied? ==> FirstMatch(Clauses, e) == Some(1)
    ensures e.ResourceExhausted? ==> FirstMatch(Clauses, e) == Some(2)
    ensures e.InvalidArgument? ==> FirstMatch(Clauses, e) == Some(3)
    ensures e.OtherApiError? ==> FirstMatch(Clauses, e) == Some(4)
    ensures !IsGoogleApiError(e) ==> FirstMatch(Clauses, e) == None
  {
    var m := FirstMatch(Clauses, e);
    assert IsInstance(e, Clauses[0]) <==> e.NotFound?;
    assert IsInstance(e, Clauses[1]) <==> e.PermissionDenied?;
    assert IsInstance(e, Clauses[2]) <==> e.ResourceExhausted?;
    assert IsInstance(e, Clauses[3]) <==> e.InvalidArgument?;
    assert IsInstance(e, Clauses[4]) <==> IsGoogleApiError(e);
  }

  /** `getattr(p, "text", "")`. */
  function PartText(p: Part): string
  {
    match p.text
    case Some(t) => t
    case None => ""
  }

  /** `"".join(getattr(p, "text", "") for p in parts)`. */
  function JoinParts(parts: seq<Part>): string
  {
    if |parts| == 0 then "" else PartText(parts[0]) + JoinParts(parts[1..])
  }

  /** The first candidate's `content.parts or []`. */
  function FirstCandidateParts(res: Response): seq<Part>
    requires |res.candidates| > 0
  {
    match res.candidates[0].parts
    case Some(ps) => ps
    case None => []
  }

  /** `(getattr(res, "text", None) or "")`, before stripping. */
  function RawText(res: Response): string
  {
    match res.text
    case Some(t) => t
    case None => ""
  }

  /** The joined parts of the first candidate, before stripping; empty when
      there are no candidates. */
  function RawFallback(res: Response): string
  {
    if |res.candidates| == 0 then "" else JoinParts(FirstCandidateParts(res))
  }

  /** The text `call_llm` settles on: the stripped `text` field, or, when
      that is empty and there are candidates, the stripped join of the first
      candidate's parts. */
  function ExtractText(res: Response): (txt: string)
    ensures IsTrimmed(txt)
    ensures Strip(RawText(res)) != [] ==> txt == Strip(RawText(res))
    ensures Strip(RawText(res)) == [] ==> txt == Strip(RawFallback(res))
  {
    var txt := Strip(RawText(res));
    if txt == [] && |res.candidates| > 0 then Strip(JoinParts(FirstCandidateParts(res))) else txt
  }

  /** The `try` body of `call_llm`: the SDK's own exception, the internal
      `RuntimeError("EMPTY_RESPONSE")`, or the extracted text. */
  function TryBody(outcome: SdkOutcome): (r: Result<string, Exception>)
  {
    match outcome
    case Raised(e) => Failure(e)
    case Returned(res) =>
      var txt := ExtractText(res);
      if txt == [] then Failure(RuntimeError("EMPTY_RESPONSE")) else Success(txt)
  }

  /** `call_llm(prompt)`, given what the SDK does with that prompt. */
  function CallLlm(modelId: string, outcome: SdkOutcome): (r: Result<string, Exception>)
    ensures r.Success? ==> r.value != [] && IsTrimmed(r.value)
    ensures r.Failure? ==> !IsGoogleApiError(r.error)
    ensures outcome.Raised? ==> r == Failure(Relabel(modelId, outcome.error))
    ensures outcome.Returned? && Strip(RawText(outcome.response)) != [] ==>
              r == Success(Strip(RawText(outcome.response)))
    ensures outcome.Returned? && Strip(RawText(outcome.response)) == [] ==>
              r == (if Strip(RawFallback(outcome.response)) == []
                    then Failure(RuntimeError("EMPTY_RESPONSE"))
                    else Success(Strip(RawFallback(outcome.response))))
  {
    match TryBody(outcome)
    case Success(txt) => Success(txt)
    case Failure(e) => Failure(Relabel(modelId, e))
  }

  /** A successful reply is a stripped copy of the response's `text` field or
      of the first candidate's joined parts, and never empty. */
  lemma SuccessIsStrippedSource(modelId: string, res: Response, txt: string)
    requires CallLlm(modelId, Returned(res)) == Success(txt)
    ensures txt != []
    ensures StrippedFrom(RawText(res), txt) || StrippedFrom(RawFallback(res), txt)
  {
  }

  /** When the `text` field holds something besides whitespace, the
      candidates are never looked at. */
  lemma CandidatesIgnoredWhenTextPresent(modelId: string, text: Option<string>,
                                         c1: seq<Candidate>, c2: seq<Candidate>)
    requires Strip(RawText(Response(text, c1))) != []
    ensures CallLlm(modelId, Returned(Response(text, c1)))
              == CallLlm(modelId, Returned(Response(text, c2)))
  {
  }

  /** Exactly the Google API errors are translated; anything else leaves the
      `try` statement as it was raised. */
  lemma RelabelChangesExactlyApiErrors(modelId: string, e: Exception)
    ensures Relabel(modelId, e) != e <==> IsGoogleApiError(e)
  {
  }

  /** The pieces of `JoinParts` appear in order: joining two runs of parts is
      joining their texts. */
  lemma {:induction false} JoinPartsAppend(a: seq<Part>, b: seq<Part>)
    ensures JoinParts(a + b) == JoinParts(a) + JoinParts(b)
  {
    if |a| == 0 {
      assert a + b == b;
    } else {
      assert (a + b)[0] == a[0];
      assert (a + b)[1..] == a[1..] + b;
      JoinPartsAppend(a[1..], b);
    }
  }

  /** A part without text adds nothing to the join. */
  lemma {:induction false} JoinPartsEmptyIff(parts: seq<Part>)
    ensures JoinParts(parts) == [] <==> forall k :: 0 <= k < |parts| ==> PartText(parts[k]) == []
  {
    if |parts| > 0 {
      JoinPartsEmptyIff(parts[1..]);
      assert forall k :: 1 <= k < |parts| ==> parts[k] == parts[1..][k - 1];
    }
  }

  /** `list_model_ids()`, given what `genai.list_models()` yields: one id
      per model, in order; an exception from the listing passes through. */
  function ListModelIds(listing: Result<seq<string>, Exception>)
    : (r: Result<seq<string>, Exception>)
    ensures listing.Failure? ==> r == listing
    ensures listing.Success? ==> r.Success? && |r.value| == |listing.value|
    ensures listing.Success? ==>
              forall k :: 0 <= k < |r.value| ==> IsLastSegment(r.value[k], listing.value[k], '/')
    ensures listing.Success? ==>
              forall k :: 0 <= k < |r.value| ==>
                Lacks(listing.value[k], '/') ==> r.value[k] == listing.value[k]
  {
    match listing
    case Failure(e) => Failure(e)
    case Success(names) =>
      Success(seq(|names|, k requires 0 <= k < |names| => LastSegment(names[k], '/')))
  }

  /** Each listed id is exactly what `name.split("/")[-1]` gives. */
  lemma IdsAreLastPieces(names: seq<string>, k: nat)
    requires k < |names|
    ensures var pieces := Split(names[k], '/');
            ListModelIds(Success(names)).value[k] == pieces[|pieces| - 1]
  {
    LastSegmentIsLastPiece(names[k], '/');
  }
}
