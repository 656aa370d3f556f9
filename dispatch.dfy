/**
 * The backend's request logic: a decoded JSON message is turned into the
 * prompt handed to the language model, or into an error text sent back to
 * the extension (`process_message`), and `message_handler` decides per
 * message between echoing it, processing it and reporting an exception.
 */
module MessageProcessor {

  /** A JSON value as `json.loads` produces it. */
  datatype Json =
    | Null
    | Bool(b: bool)
    | Number(x: real)
    | Str(s: string)
    | Array(items: seq<Json>)
    | Object(fields: map<string, Json>)

  /** Python truthiness of the decoded value. */
  predicate Truthy(v: Json)
  {
    match v
    case Null => false
    case Bool(b) => b
    case Number(x) => x != 0.0
    case Str(s) => s != ""
    case Array(items) => items != []
    case Object(fields) => fields != map[]
  }

  /** `message.get(key)`: `None` for a missing key. */
  function Get(message: map<string, Json>, key: string): Json
  {
    if key in message then message[key] else Null
  }

  const ParseInputError := "Error in parsing the input"
  const ParseComposeError := "Error in parsing the compose input"
  const ParseTypeError := "Error in parsing the message type"
  const ContextLink := "Use context while answering - "
  const SummaryInstruction := "Rewrite the following website extract in human comprehensible concise form - "

  /**
   * What `process_message` does with a message: start generation from a
   * prompt, send a fixed error text, or send `"Error: " + str(e)` for an
   * exception raised inside its `try` (the wording of `e` is Python's and
   * is not modelled).
   */
  datatype Outcome = Generate(prompt: Json) | SendError(text: string) | ExceptionError

  /** `text + "Use context while answering - " + context`, which raises unless both are strings. */
  function QueryPrompt(text: Json, context: Json): Outcome
  {
    if text.Str? && context.Str? then Generate(Str(text.s + ContextLink + context.s)) else ExceptionError
  }

  /** The summarisation instruction followed by the context, which raises unless the context is a string. */
  function SummarizePrompt(context: Json): Outcome
  {
    if context.Str? then Generate(Str(SummaryInstruction + context.s)) else ExceptionError
  }

  /** `process_message`. */
  function Dispatch(message: map<string, Json>): (r: Outcome)
    ensures r.Generate? ==> Get(message, "type") in {Str("query"), Str("summarize"), Str("compose")}
    ensures r.Generate? ==> Truthy(r.prompt)
  {
    var messageType := Get(message, "type");
    if messageType == Str("query") then
      var text, context := Get(message, "text"), Get(message, "context");
      if Truthy(text) && Truthy(context) then QueryPrompt(text, context) else SendError(ParseInputError)
    else if messageType == Str("summarize") then
      var context := Get(message, "context");
      if Truthy(context) then SummarizePrompt(context) else SendError(ParseInputError)
    else if messageType == Str("compose") then
      var text := Get(message, "text");
      if Truthy(text) then Generate(text) else SendError(ParseComposeError)
    else
      SendError(ParseTypeError)
  }

  /**
   * A query whose text and context are non-empty strings asks the model
   * about the text, with the context appended after the linking phrase; a
   * query missing either (or holding an empty or other falsy value) is
   * answered with the input parsing error.
   */
  lemma {:induction false} QueryDispatch(message: map<string, Json>, text: string, context: string)
    requires Get(message, "type") == Str("query")
    ensures Get(message, "text") == Str(text) && Get(message, "context") == Str(context) && text != "" && context != "" ==>
      Dispatch(message) == Generate(Str(text + ContextLink + context))
    ensures Dispatch(message) == SendError(ParseInputError) <==>
      !Truthy(Get(message, "text")) || !Truthy(Get(message, "context"))
    ensures Dispatch(message).Generate? ==>
      Get(message, "text").Str? && Get(message, "context").Str? &&
      Dispatch(message).prompt.s == Get(message, "text").s + ContextLink + Get(message, "context").s
  {
  }

  /** A summarize request needs a non-empty context and prefixes it with the rewriting instruction. */
  lemma {:induction false} SummarizeDispatch(message: map<string, Json>, context: string)
    requires Get(message, "type") == Str("summarize")
    ensures Get(message, "context") == Str(context) && context != "" ==>
      Dispatch(message) == Generate(Str(SummaryInstruction + context))
    ensures Dispatch(message) == SendError(ParseInputError) <==> !Truthy(Get(message, "context"))
    ensures Dispatch(message).Generate? ==>
      Get(message, "context").Str? && Dispatch(message).prompt.s == SummaryInstruction + Get(message, "context").s
  {
  }

  /** A compose request passes its text to the model as it is, or is answered with the compose error. */
  lemma {:induction false} ComposeDispatch(message: map<string, Json>)
    requires Get(message, "type") == Str("compose")
    ensures Truthy(Get(message, "text")) <==> Dispatch(message) == Generate(Get(message, "text"))
    ensures !Truthy(Get(message, "text")) <==> Dispatch(message) == SendError(ParseComposeError)
  {
  }

  /** Any other type, a missing one included, gets the message type error and nothing else does. */
  lemma {:induction false} UnknownTypeDispatch(message: map<string, Json>)
    ensures Dispatch(message) == SendError(ParseTypeError) <==>
      Get(message, "type") !in {Str("query"), Str("summarize"), Str("compose")}
  {
  }

  /** Every error text `process_message` produces itself is one of the three fixed ones. */
  lemma {:induction false} ErrorTexts(message: map<string, Json>)
    ensures Dispatch(message).SendError? ==>
      Dispatch(message).text in {ParseInputError, ParseComposeError, ParseTypeError}
  {
  }

  /** What `message_handler` does with one decoded message. */
  datatype Action =
    | Echo(message: Json)
    | Process(request: map<string, Json>)
    | ReportException

  /**
   * A message whose type is `"error"` is sent back as it is; any other
   * object goes to `process_message` on its own thread; a value that is not
   * an object has no `get` and the exception is reported.
   */
  function Handle(value: Json): (a: Action)
    ensures a.Echo? ==> a.message == value
  {
    match value
    case Object(fields) =>
      if Get(fields, "type") == Str("error") then Echo(value) else Process(fields)
    case _ => ReportException
  }

  /** `{"type": "error", "text": text}`. */
  function ErrorMessage(text: string): Json
  {
    Object(map["type" := Str("error"), "text" := Str(text)])
  }

  /** Error objects, such as the one `read_message` makes of an unparsable payload, are echoed back unchanged. */
  lemma {:induction false} ErrorMessageEchoed(text: string)
    ensures Handle(ErrorMessage(text)) == Echo(ErrorMessage(text))
  {
    var fields := map["type" := Str("error"), "text" := Str(text)];
    assert Get(fields, "type") == Str("error");
  }

  /** Only objects reach `process_message`, and only those whose type is not `"error"`. */
  lemma {:induction false} HandleProcess(value: Json)
    ensures Handle(value).Process? <==> value.Object? && Get(value.fields, "type") != Str("error")
    ensures Handle(value).Process? ==> Handle(value).request == value.fields
  {
  }
}
