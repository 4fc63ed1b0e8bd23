# Fernlight Gemini LINE bot — a verified model of its decision logic

The bot is a LINE webhook service that passes users' text messages to Google
Gemini and replies with the answer. Most of the program is glue around the
Gemini and LINE SDKs. This project models the two pieces that make decisions,
as pure Dafny functions over datatypes that stand in for the SDK objects:

- `llm.py`
  - `call_llm` extracts the answer text from a Gemini response. It prefers the
    stripped `text` field. When that is blank, it falls back to the stripped
    join of the first candidate's parts. When both are blank, it raises
    `EMPTY_RESPONSE`.
  - `call_llm` also relabels Google API errors as `RuntimeError`s carrying
    fixed labels. The first matching `except` clause wins.
  - `list_model_ids` keeps the part of each model name after its last `/`.
- `main.py`'s `handle_message` chooses the reply to one LINE event. It checks,
  in order: a non-text event, the goodbye word, the `working_status` flag, and
  finally the outcome of the LLM call.

Files:

- `wrappers.dfy` (`Wrappers`): `Option` stands for Python's `None`. `Result`
  holds a returned value or a raised exception.
- `strings.dfy` (`Strings`):
  - Python's `str.strip()`, using the whitespace set of CPython's
    `str.isspace`.
  - `str.split(sep)` and `sep.join`, and the last piece of a split.
- `llm.dfy` (`Llm`): the response and exception datatypes, `except`-clause
  dispatch, `call_llm` and `list_model_ids`.
- `bot.dfy` (`Bot`): `handle_message`, and the handler composed with `call_llm`.

### How the model is set up

- **Python exceptions.** An exception raised inside `call_llm`'s `try` is a
  value. `FirstMatch` searches the clause list in source order, using
  `isinstance` on a small class hierarchy: every specific Google API class is
  also a `GoogleAPICallError`.
- **SDK calls.** What `generate_content` and `list_models` return or raise is
  an input (`SdkOutcome`, or a `Result` of names).
- **The handler.** It takes the LLM as a total function from prompt to outcome.
  It returns a `Step`, which holds:
  - the unchanged state;
  - the prompt the LLM was called with, or `None` when it was not called;
  - the reply sent, or `None` when there is none.

  Because `reply` is an `Option`, each event gets at most one reply by
  construction.

### Canned replies

The code has exactly four canned replies. Every `Exception` raised by the LLM
call gets the single error reply.

The handler is registered with `message=TextMessage` (`main.py:62`), so the
LINE SDK only dispatches text messages to it. The non-text branch at
`main.py:65-67` therefore never fires in the deployed bot. The model keeps
that branch because `handle_message` itself handles any event.

## Model

| member | source | states |
|---|---|---|
| Strings.Strip | llm.py:29 | `str.strip()`: the result has no leading or trailing whitespace; it is a contiguous piece of the input with only whitespace on either side; it is empty exactly when the input is all whitespace |
| Strings.StripUnique | llm.py:29 | any trimmed piece of `s` with only whitespace around it is `Strip(s)`, so `Strip`'s contract fully characterises it |
| Strings.StripTrimmed | llm.py:29 | a string with no whitespace at either end is unchanged by `strip()` |
| Strings.StripIdempotent | llm.py:29 | stripping twice gives the same as stripping once |
| Strings.TrimLeft | llm.py:29 | removes exactly the leading whitespace: a suffix of the input, all-whitespace before it, not starting with whitespace |
| Strings.TrimRight | llm.py:29 | removes exactly the trailing whitespace: a prefix of the input, all-whitespace after it, not ending with whitespace |
| Strings.Split | llm.py:57 | `s.split(sep)`: at least one piece, and no piece contains the separator |
| Strings.JoinSplit | llm.py:57 | `sep.join(s.split(sep)) == s`: splitting loses no character |
| Strings.SplitJoin | llm.py:57 | splitting a join of separator-free pieces gives those pieces back; with `JoinSplit`, this means the separator-free pieces that join to `s` are exactly `s.split(sep)` |
| Strings.LastSegment | llm.py:57 | the part after the last separator: a suffix without the separator, preceded by the separator or by nothing, and the whole string when it has no separator |
| Strings.LastSegmentUnique | llm.py:57 | those properties (`IsLastSegment`) determine the last segment |
| Strings.LastSegmentIsLastPiece | llm.py:57 | the last segment is `s.split(sep)[-1]` |
| Llm.FirstMatch | llm.py:38-51 | Python's handler search: the index returned is the first clause whose class the exception belongs to, and no clause matches when none is returned |
| Llm.ClauseIndex | llm.py:38-51 | for each exception kind, the clause that catches it: the four specific classes are caught by their own clause before `GoogleAPICallError`, and non-API errors by none |
| Llm.Relabel | llm.py:38-51 | the label table (`MODEL_NOT_FOUND:` + model id, `PERMISSION_DENIED_API_OR_KEY`, `QUOTA_EXCEEDED`, `BAD_REQUEST_PAYLOAD`, `GOOGLE_API_ERROR:` + message); non-API errors pass unchanged; no Google API error leaves the `try` |
| Llm.RelabelChangesExactlyApiErrors | llm.py:38-51 | an exception is translated if and only if it is a Google API error |
| Llm.ExtractText | llm.py:29-32 | the extracted text is trimmed; it is the stripped `text` field when that is non-blank, else the stripped join of the first candidate's parts (empty when there are no candidates) |
| Llm.CallLlm | llm.py:27-51 | a success is non-empty and trimmed; it is the stripped `text` when non-blank, else the stripped fallback when non-blank; otherwise `EMPTY_RESPONSE` fails through unchanged; an SDK exception comes out relabelled; no Google API error escapes |
| Llm.SuccessIsStrippedSource | llm.py:29-35 | a returned text is non-empty and is a stripped copy of the `text` field or of the first candidate's joined parts |
| Llm.CandidatesIgnoredWhenTextPresent | llm.py:29-30 | when the `text` field is non-blank, the candidates have no effect on the result |
| Llm.JoinPartsAppend | llm.py:32 | the joined parts keep the parts' order: joining two runs is concatenating their joins |
| Llm.JoinPartsEmptyIff | llm.py:32 | the join is empty exactly when every part contributes no text (absent text counts as `""`) |
| Llm.ListModelIds | llm.py:57 | one id per listed name, in order; each id is the suffix after the name's last `/` and holds no `/` (`IsLastSegment`, which `Strings.LastSegmentUnique` shows determines it); a name without `/` is its own id; a listing error propagates |
| Llm.IdsAreLastPieces | llm.py:57 | each id equals `name.split("/")[-1]` |
| Bot.ReplyFor | main.py:74-78 | `call_llm(text) or` the no-answer reply, with exceptions caught: the error reply on failure, the answer when non-empty, the no-answer reply on an empty or absent answer; never empty |
| Bot.HandleMessage | main.py:63-79 | the decision table: a non-text event gets the text-only reply; a stripped `再見` gets `Bye!`; with the flag off there is no reply; only otherwise is the LLM called, with the unstripped text, and its outcome chooses the reply; the state is never changed; every reply is non-empty |
| Bot.LlmIrrelevantUnlessReached | main.py:65-73 | an event that stops at an early return or the flag check is handled the same whatever the LLM would do, so the LLM is not consulted |
| Bot.EarlyRepliesIgnoreFlag | main.py:65-71 | the non-text and goodbye replies are sent whatever `working_status` is |
| Bot.ReplyIsCannedOrAnswer | main.py:63-79 | every reply is one of the four fixed strings or an answer the LLM gave for this event's text |
| Bot.HandleWithGemini | main.py:63-79 | the handler with `call_llm` as its LLM: the state is unchanged; `call_llm` is called exactly when the event is text, not the goodbye word, and the flag is on, and then with the unstripped text; the early replies and the silent case are as in `handle_message`; every reply is non-empty |
| Bot.NoAnswerUnreachable | main.py:73-79 | with `call_llm` as the LLM, a reply after the flag check is `call_llm`'s own text or the error reply, never the no-answer fallback |
| Bot.NonEmptyAnswerKept | main.py:75 | a result that is never an empty success passes the handler's `or` unchanged |

## Left out

- FastAPI routes (`/health`, `/diag`, `/list_models`, `/test_llm`, `/webhook`), CORS and background tasks: HTTP plumbing with no decisions of its own.
- Environment and secret loading, `genai.configure` and model construction: process configuration. The model id is a parameter, so its default value is not modelled.
- The generation config (`temperature`, `top_p`, `top_k`, `max_output_tokens`) and the system instruction: values passed through to the SDK.
- The `generate_content` and `list_models` network calls: their results are inputs.
- Exceptions the real SDK raises when `.text` is read: `getattr` with a default catches only `AttributeError`, and such an exception would propagate unlabelled. The model treats the field as present or absent.
- `str(e)` of a Google API error: this is the exception's abstract `message` field.
- The exception chaining of `raise ... from e`: it does not affect which exception is raised.
- LINE signature verification and `reply_message` delivery: a reply is an output value, and reply tokens are not modelled.
- The traceback printed when the LLM call fails: console output.
- Exceptions that are not `Exception` subclasses (`KeyboardInterrupt`, `SystemExit`): `except Exception` at main.py:76 lets them escape `handle_message` with no reply sent; `Llm.Exception` stands only for `Exception` subclasses.
- Concurrency on `working_status`: the handler only reads it, so one event at a time is modelled.
