/** `main.py`'s `handle_message`: which reply, if any, one LINE event gets.
    The bot's only state is the `working_status` flag; the LLM is a function
    from prompt to outcome, and a reply is an output value rather than a
    call into the LINE SDK. */
module Bot {
  import opened Wrappers
  import opened Strings
  import Llm

  /** Reply to anything but a text message. */
  const NonTextReply: string := "只接受文字訊息"

  /** The word that ends a conversation, and the reply to it. */
  const Goodbye: string := "再見"
  const ByeReply: string := "Bye!"

  /** Reply when the LLM answers with nothing. */
  const NoAnswerReply: string := "Gemini沒答案!請換個說法！"

  /** Reply when the LLM call raises. */
  const ErrorReply: string := "Gemini執行出錯!請換個說法！"

  /** `event.message`: its `type` and, for text messages, its `text`. */
  datatype Message = Message(kind: string, text: string)

  /** A LINE webhook event: its `type` and its message. */
  datatype Event = Event(kind: string, message: Message)

  /** The module-level state `handle_message` sees. */
  datatype BotState = BotState(workingStatus: bool)

  /** What the LLM call does with a prompt: returns a possibly empty or
      absent answer, or raises. */
  type LlmCall = string -> Result<Option<string>, Llm.Exception>

  /** The effect of handling one event: the state afterwards, the prompt the
      LLM was called with (`None` when it was not called), and the one reply
      sent (`None` when nothing is sent). */
  datatype Step = Step(state: BotState, prompt: Option<string>, reply: Option<string>)

  predicate IsTextMessage(event: Event)
  {
    event.kind == "message" && event.message.kind == "text"
  }

  predicate IsGoodbye(event: Event)
  {
    Strip(event.message.text) == Goodbye
  }

  /** The event gets past both early returns and the flag check. */
  predicate ReachesLlm(state: BotState, event: Event)
  {
    IsTextMessage(event) && !IsGoodbye(event) && state.workingStatus
  }

  /** `out = call_llm(text) or NoAnswerReply`, with any exception turned
      into `ErrorReply`. */
  function ReplyFor(outcome: Result<Option<string>, Llm.Exception>): (out: string)
    ensures out != []
    ensures outcome.Failure? ==> out == ErrorReply
    ensures outcome.Success? && outcome.value.Some? && outcome.value.value != [] ==>
              out == outcome.value.value
    ensures outcome.Success? && (outcome.value.None? || outcome.value.value == []) ==>
              out == NoAnswerReply
  {
    match outcome
    case Failure(_) => ErrorReply
    case Success(answer) =>
      match answer
      case Some(t) => if t != [] then t else NoAnswerReply
      case None => NoAnswerReply
  }

  /** `handle_message(event)` with `working_status` taken from `state`. */
  function HandleMessage(state: BotState, event: Event, llm: LlmCall): (step: Step)
    ensures step.state == state
    ensures !IsTextMessage(event) ==> step.prompt == None && step.reply == Some(NonTextReply)
    ensures IsTextMessage(event) && IsGoodbye(event) ==>
              step.prompt == None && step.reply == Some(ByeReply)
    ensures IsTextMessage(event) && !IsGoodbye(event) && !state.workingStatus ==>
              step.prompt == None && step.reply == None
    ensures ReachesLlm(state, event) ==> step.prompt == Some(event.message.text)
    ensures step.prompt.Some? <==> ReachesLlm(state, event)
    ensures step.prompt.Some? ==> step.reply == Some(ReplyFor(llm(step.prompt.value)))
    ensures step.reply.Some? ==> step.reply.value != []
  {
    if !IsTextMessage(event) then Step(state, None, Some(NonTextReply))
    else if IsGoodbye(event) then Step(state, None, Some(ByeReply))
    else if state.workingStatus then
      var text := event.message.text;
      Step(state, Some(text), Some(ReplyFor(llm(text))))
    else Step(state, None, None)
  }

  /** What the handler does with an event that does not reach the LLM is
      the same whatever the LLM would have done. */
  lemma LlmIrrelevantUnlessReached(state: BotState, event: Event, llm1: LlmCall, llm2: LlmCall)
    requires !ReachesLlm(state, event)
    ensures HandleMessage(state, event, llm1) == HandleMessage(state, event, llm2)
  {
  }

  /** The non-text and goodbye replies do not depend on `working_status`. */
  lemma EarlyRepliesIgnoreFlag(event: Event, llm: LlmCall)
    requires !IsTextMessage(event) || IsGoodbye(event)
    ensures HandleMessage(BotState(true), event, llm).reply
              == HandleMessage(BotState(false), event, llm).reply
    ensures HandleMessage(BotState(true), event, llm).reply.Some?
  {
  }

  /** One of the four fixed replies. */
  predicate IsCanned(s: string)
  {
    s == NonTextReply || s == ByeReply || s == NoAnswerReply || s == ErrorReply
  }

  /** Every reply is one of the four canned strings or an answer the LLM gave
      for this very event's text. */
  lemma ReplyIsCannedOrAnswer(state: BotState, event: Event, llm: LlmCall)
    ensures var r := HandleMessage(state, event, llm).reply;
            r.Some? ==> IsCanned(r.value) || llm(event.message.text) == Success(Some(r.value))
  {
    var step := HandleMessage(state, event, llm);
    if ReachesLlm(state, event) {
      var o := llm(event.message.text);
      assert step.reply == Some(ReplyFor(o));
      if o.Success? && o.value.Some? && o.value.value != [] {
        assert step.reply.value == o.value.value;
      } else {
        assert IsCanned(ReplyFor(o));
      }
    } else {
      assert step.reply.Some? ==> IsCanned(step.reply.value);
    }
  }

  /** `call_llm`'s outcome in the shape the handler's LLM parameter has. */
  function AsLlmCall(r: Result<string, Llm.Exception>): Result<Option<string>, Llm.Exception>
  {
    match r
    case Success(t) => Success(Some(t))
    case Failure(e) => Failure(e)
  }

  /** The handler wired to `call_llm`, where `sdk` says what the SDK does with
      each prompt: `call_llm` is consulted exactly when the event gets past
      the early returns and the flag, with the unstripped text. */
  function HandleWithGemini(state: BotState, event: Event, modelId: string,
                            sdk: string -> Llm.SdkOutcome): (step: Step)
    ensures step.state == state
    ensures step.prompt.Some? <==> ReachesLlm(state, event)
    ensures step.prompt.Some? ==> step.prompt.value == event.message.text
    ensures !IsTextMessage(event) ==> step.reply == Some(NonTextReply)
    ensures IsTextMessage(event) && IsGoodbye(event) ==> step.reply == Some(ByeReply)
    ensures step.reply.None? <==> IsTextMessage(event) && !IsGoodbye(event) && !state.workingStatus
    ensures step.reply.Some? ==> step.reply.value != []
  {
    HandleMessage(state, event, p => AsLlmCall(Llm.CallLlm(modelId, sdk(p))))
  }

  /** Wired to `call_llm`, the "no answer" branch never fires: a reply that
      reaches the LLM is either `call_llm`'s own non-empty text or the error
      reply. */
  lemma NoAnswerUnreachable(state: BotState, event: Event, modelId: string,
                            sdk: string -> Llm.SdkOutcome)
    requires ReachesLlm(state, event)
    ensures var r := Llm.CallLlm(modelId, sdk(event.message.text));
            HandleWithGemini(state, event, modelId, sdk).reply
              == Some(if r.Success? then r.value else ErrorReply)
  {
    var llm: LlmCall := p => AsLlmCall(Llm.CallLlm(modelId, sdk(p)));
    var r := Llm.CallLlm(modelId, sdk(event.message.text));
    assert llm(event.message.text) == AsLlmCall(r);
    assert HandleMessage(state, event, llm).reply == Some(ReplyFor(AsLlmCall(r)));
    NonEmptyAnswerKept(r);
  }

  /** A result that is never an empty success passes through the handler's
      `or` unchanged. */
  lemma NonEmptyAnswerKept(r: Result<string, Llm.Exception>)
    requires r.Success? ==> r.value != []
    ensures ReplyFor(AsLlmCall(r)) == if r.Success? then r.value else ErrorReply
  {
  }
}
