/** `sendToOpenRouter` and `processText`: choosing the credential, building
    the prompt and request body, and turning the completion endpoint's
    response into a result or an error. The HTTP exchange itself is an
    input: the response the endpoint returned. */
module Client {
  import opened Wrappers
  import opened Errors
  import opened Json
  import Text
  import KeyStore
  import Extraction

  // ---------------------------------------------------------------- credential

  /** The key sent as bearer credential: the selected key when there is one,
      otherwise the typed input with surrounding whitespace removed. Neither
      is an error raised before any request is made. */
  function Credential(store: KeyStore.Storage, input: string): (r: Result<string, Error>)
    ensures var selected := KeyStore.SelectedKey(store);
      && (selected != "" ==> r == Success(selected))
      && (selected == "" ==>
            (r.Failure? <==> forall k :: 0 <= k < |input| ==> Text.IsJsWhitespace(input[k])))
    ensures r.Failure? ==> r.error == MissingApiKey
    ensures r.Success? ==> r.value != ""
    ensures r.Success? && KeyStore.SelectedKey(store) == "" ==>
      r.value == Text.Trim(input) && !Text.IsJsWhitespace(r.value[0])
  {
    var selected := KeyStore.SelectedKey(store);
    var key := if selected != "" then selected else Text.Trim(input);
    if key == "" then Failure(MissingApiKey) else Success(key)
  }

  // -------------------------------------------------------------------- prompt

  const TranslatePrefix := "Translate the following text to Persian:\n"
  const SummaryPrefix := "Provide a concise summary " + "of the following text:\n"
  const TranslateSummaryPrefix :=
    "First, provide a concise summary " + "of the following text, then translate "
    + "the Summarized text to Persian:\n"

  /** The actions the popup offers. */
  predicate IsKnownAction(action: string) {
    action in {"translate", "summary", "translate-summary"}
  }

  /** The instruction each known action puts before the text. */
  function PromptPrefix(action: string): Option<string> {
    if action == "translate" then Some(TranslatePrefix)
    else if action == "summary" then Some(SummaryPrefix)
    else if action == "translate-summary" then Some(TranslateSummaryPrefix)
    else None
  }

  /** The prompt for `action`: its fixed instruction, ending in `":\n"`,
      followed by the text unchanged; an unknown action is an error. */
  function BuildPrompt(action: string, text: string): (r: Result<string, Error>)
    ensures r.Failure? <==> !IsKnownAction(action)
    ensures r.Failure? ==> r.error == InvalidAction
    ensures r.Success? ==> exists p :: PromptPrefix(action) == Some(p) && r.value == p + text
    ensures r.Success? ==>
      && |r.value| >= 2 + |text|
      && r.value[|r.value| - |text|..] == text
      && r.value[|r.value| - |text| - 2..|r.value| - |text|] == ":\n"
  {
    match PromptPrefix(action)
    case None => Failure(InvalidAction)
    case Some(prefix) => Success(prefix + text)
  }

  /** Reads a prompt back into its action and text. */
  function ParsePrompt(prompt: string): Option<(string, string)> {
    if TranslatePrefix <= prompt then Some(("translate", prompt[|TranslatePrefix|..]))
    else if SummaryPrefix <= prompt then Some(("summary", prompt[|SummaryPrefix|..]))
    else if TranslateSummaryPrefix <= prompt then
      Some(("translate-summary", prompt[|TranslateSummaryPrefix|..]))
    else None
  }

  /** A prompt determines the action and the text it was built from. */
  lemma ParseBuildPrompt(action: string, text: string)
    requires BuildPrompt(action, text).Success?
    ensures ParsePrompt(BuildPrompt(action, text).value) == Some((action, text))
  {
    var p := BuildPrompt(action, text).value;
    assert TranslatePrefix[0] == 'T' && SummaryPrefix[0] == 'P' && TranslateSummaryPrefix[0] == 'F';
    if action == "translate" {
      assert p[..|TranslatePrefix|] == TranslatePrefix;
    } else if action == "summary" {
      assert p[0] == 'P';
      assert p[..|SummaryPrefix|] == SummaryPrefix;
    } else {
      assert p[0] == 'F';
      assert p[..|TranslateSummaryPrefix|] == TranslateSummaryPrefix;
    }
  }

  /** Two requests with equal prompts have the same action and text. */
  lemma PromptInjective(a1: string, t1: string, a2: string, t2: string)
    requires BuildPrompt(a1, t1).Success? && BuildPrompt(a1, t1) == BuildPrompt(a2, t2)
    ensures a1 == a2 && t1 == t2
  {
    ParseBuildPrompt(a1, t1);
    ParseBuildPrompt(a2, t2);
  }

  // ------------------------------------------------------------------- request

  /** What is sent: the bearer credential and the JSON request body. */
  datatype Request = Request(apiKey: string, body: Json)

  /** `{model, messages: [{role: "user", content: prompt}], stream: false}`. */
  function RequestBody(model: string, prompt: string): Json {
    JObj([("model", JStr(model)), ("messages", JArr([UserMessage(prompt)])), ("stream", JBool(false))])
  }

  /** The single message of the request. */
  function UserMessage(prompt: string): Json {
    JObj([("role", JStr("user")), ("content", JStr(prompt))])
  }

  /** The endpoint finds the model, a one-element message list, and
      streaming switched off. */
  lemma RequestBodyFields(model: string, prompt: string)
    ensures var body := RequestBody(model, prompt);
      && Member(body, "model") == Some(JStr(model))
      && Member(body, "stream") == Some(JBool(false))
      && Member(body, "messages") == Some(JArr([UserMessage(prompt)]))
      && Member(JArr([UserMessage(prompt)]), "length") == Some(JNum(1))
      && Member(JArr([UserMessage(prompt)]), "0") == Some(UserMessage(prompt))
  {
    var body := RequestBody(model, prompt);
    LastFieldOfDistinct(body.fields, 0);
    LastFieldOfDistinct(body.fields, 1);
    LastFieldOfDistinct(body.fields, 2);
    IndexZero();
  }

  /** The message is from the user and its content is the prompt. */
  lemma UserMessageFields(prompt: string)
    ensures Member(UserMessage(prompt), "role") == Some(JStr("user"))
    ensures Member(UserMessage(prompt), "content") == Some(JStr(prompt))
  {
    LastFieldOfDistinct(UserMessage(prompt).fields, 0);
    LastFieldOfDistinct(UserMessage(prompt).fields, 1);
  }

  /** The steps of `sendToOpenRouter` before the network call: the
      credential is checked first, then the action. */
  function Prepare(store: KeyStore.Storage, input: string, model: string, action: string, text: string)
    : (r: Result<Request, Error>)
    ensures Credential(store, input).Failure? ==> r == Failure(MissingApiKey)
    ensures Credential(store, input).Success? ==>
      (r.Success? <==> BuildPrompt(action, text).Success?)
    ensures Credential(store, input).Success? && !IsKnownAction(action) ==> r == Failure(InvalidAction)
    ensures r.Failure? ==> r.error in {MissingApiKey, InvalidAction}
    ensures r.Success? ==>
      && r.value.apiKey == Credential(store, input).value
      && r.value.body == RequestBody(model, BuildPrompt(action, text).value)
  {
    var key :- Credential(store, input);
    var prompt :- BuildPrompt(action, text);
    Success(Request(key, RequestBody(model, prompt)))
  }

  /** The prompt as the endpoint reads it: `messages[0].content`. */
  function SentPrompt(body: Json): Option<string> {
    if body == JNull then None
    else match Member(body, "messages")
      case Some(JArr(items)) =>
        (match Member(JArr(items), "0")
         case Some(JObj(fields)) =>
           (match Member(JObj(fields), "content")
            case Some(JStr(prompt)) => Some(prompt)
            case _ => None)
         case _ => None)
      case _ => None
  }

  /** A prepared request reads back, through the body the endpoint sees, to
      the action and text it was prepared from. */
  lemma PrepareReadBack(store: KeyStore.Storage, input: string, model: string, action: string,
                        text: string)
    requires Prepare(store, input, model, action, text).Success?
    ensures var prompt := SentPrompt(Prepare(store, input, model, action, text).value.body);
      && prompt.Some?
      && ParsePrompt(prompt.value) == Some((action, text))
  {
    var p := BuildPrompt(action, text).value;
    RequestBodyFields(model, p);
    UserMessageFields(p);
    ParseBuildPrompt(action, text);
  }

  // ------------------------------------------------------------------ response

  /** The body as `JSON.parse` sees it. */
  datatype Body = Unparsable | Parsed(data: Json)

  /** The HTTP response: `response.ok`, `response.status` and the body. */
  datatype Response = Response(ok: bool, status: nat, body: Body)

  /** `data.choices[0].message` when each step is truthy, with the same
      short-circuit as the source's guard; `data` must not be `null`. */
  function FirstMessage(data: Json): (m: Option<Json>)
    requires data != JNull
    ensures var choices := Member(data, "choices");
      m.Some? <==>
        && Truthy(choices)
        && Truthy(Member(choices.value, "0"))
        && Truthy(Member(Member(choices.value, "0").value, "message"))
    ensures m.Some? ==>
      && Truthy(m)
      && m == Member(Member(Member(data, "choices").value, "0").value, "message")
  {
    var choices := Member(data, "choices");
    if !Truthy(choices) then None
    else
      var first := Member(choices.value, "0");
      if !Truthy(first) then None
      else
        var message := Member(first.value, "message");
        if !Truthy(message) then None else message
  }

  /** The response handling of `sendToOpenRouter` as written. A non-ok
      response fails with the status message whatever its body, because the
      `API Error` thrown inside the inner `try` is caught by its own
      `catch`. An ok response must parse, must not be `null`, and must have
      a truthy `choices[0].message`; its `content` is returned unchecked
      (`None` is `undefined`). */
  function Classify(resp: Response): (r: Result<Option<Json>, Error>)
    ensures !resp.ok ==> r == Failure(RequestFailed(resp.status))
    ensures resp.ok && resp.body.Unparsable? ==> r == Failure(JsonSyntaxError)
    ensures resp.ok && resp.body == Parsed(JNull) ==> r == Failure(NullDataAccess)
    ensures resp.ok && resp.body.Parsed? && resp.body.data != JNull ==>
      && (r.Success? <==> FirstMessage(resp.body.data).Some?)
      && (r.Failure? ==> r.error == InvalidResponseFormat)
      && (r.Success? ==> r.value == Member(FirstMessage(resp.body.data).value, "content"))
  {
    if !resp.ok then
      Failure(RequestFailed(resp.status))
    else
      match resp.body
      case Unparsable => Failure(JsonSyntaxError)
      case Parsed(data) =>
        if data == JNull then Failure(NullDataAccess)
        else
          match FirstMessage(data)
          case None => Failure(InvalidResponseFormat)
          case Some(message) => Success(Member(message, "content"))
  }

  /** An object whose `choices` member is the given array. */
  function ChoicesBody(choices: seq<Json>): Json {
    JObj([("choices", JArr(choices))])
  }

  /** The body of a well-formed completion carrying `content`. */
  function CompletionBody(content: string): Json {
    ChoicesBody([JObj([("message", JObj([("content", JStr(content))]))])])
  }

  /** A successful response in the endpoint's documented shape yields its
      content. */
  lemma ClassifyCompletion(status: nat, content: string)
    ensures Classify(Response(true, status, Parsed(CompletionBody(content)))) == Success(Some(JStr(content)))
  {
    IndexZero();
  }

  /** An ok response whose `choices` array has no first element, or a falsy
      one, is an invalid format. */
  lemma ClassifyNoFirstChoice(status: nat, choices: seq<Json>)
    requires choices == [] || !Truthy(Some(choices[0]))
    ensures Classify(Response(true, status, Parsed(ChoicesBody(choices)))) == Failure(InvalidResponseFormat)
  {
    IndexZero();
  }

  /** An ok response whose first choice has no truthy `message` is an
      invalid format, whatever follows it. */
  lemma ClassifyNoMessage(status: nat, fields: seq<(string, Json)>, rest: seq<Json>)
    requires !Truthy(LastField(fields, "message"))
    ensures Classify(Response(true, status, Parsed(ChoicesBody([JObj(fields)] + rest))))
         == Failure(InvalidResponseFormat)
  {
    IndexZero();
  }

  /** Once the first choice has a truthy `message`, its `content` is
      returned without any check, `undefined` included. */
  lemma ClassifyContentUnchecked(status: nat, fields: seq<(string, Json)>, rest: seq<Json>)
    requires Truthy(LastField(fields, "message"))
    ensures Classify(Response(true, status, Parsed(ChoicesBody([JObj(fields)] + rest))))
         == Success(Member(LastField(fields, "message").value, "content"))
  {
    var choices := [JObj(fields)] + rest;
    IndexZero();
    assert Member(ChoicesBody(choices), "choices") == Some(JArr(choices));
    assert Member(JArr(choices), "0") == Some(JObj(fields));
  }

  /** In particular a message without `content` succeeds with `undefined`. */
  lemma ClassifyMessageWithoutContent(status: nat)
    ensures Classify(Response(true, status, Parsed(ChoicesBody([JObj([("message", JObj([]))])]))))
         == Success(None)
  {
    var fields := [("message", JObj([]))];
    assert LastField(fields, "message") == Some(JObj([]));
    ClassifyContentUnchecked(status, fields, []);
    assert [JObj(fields)] + [] == [JObj(fields)];
  }

  /** A non-ok response's outcome depends on its status alone. */
  lemma ClassifyIgnoresFailureBody(status: nat, b1: Body, b2: Body)
    ensures Classify(Response(false, status, b1)) == Classify(Response(false, status, b2))
    ensures Classify(Response(false, status, b1)).Failure?
  {
  }

  /** An ok object body without `choices` is an invalid format. */
  lemma ClassifyMissingChoices(status: nat, fields: seq<(string, Json)>)
    requires forall k :: 0 <= k < |fields| ==> fields[k].0 != "choices"
    ensures Classify(Response(true, status, Parsed(JObj(fields)))) == Failure(InvalidResponseFormat)
  {
  }

  /** The nested `try` evidently meant to report the remote error: a non-ok
      response whose body parses reports `error.message` (or
      `Unknown error` when it is falsy), and only an unparsable or `null`
      body falls back to the status message. The ok path is unchanged. */
  function ClassifyIntended(resp: Response): (r: Result<Option<Json>, Error>)
    ensures resp.ok ==> r == Classify(resp)
    ensures !resp.ok && (resp.body.Unparsable? || resp.body == Parsed(JNull)) ==>
      r == Failure(RequestFailed(resp.status))
    ensures !resp.ok && resp.body.Parsed? && resp.body.data != JNull ==> r.Failure? && r.error.ApiError?
  {
    if resp.ok then Classify(resp)
    else
      match resp.body
      case Unparsable => Failure(RequestFailed(resp.status))
      case Parsed(errorJson) =>
        if errorJson == JNull then Failure(RequestFailed(resp.status))
        else
          var error := Member(errorJson, "error");
          var message := if error.Some? && error.value != JNull then Member(error.value, "message") else None;
          Failure(ApiError(if Truthy(message) then ToJsString(message.value) else "Unknown error"))
  }

  /** With the corrected handling, a parsed failure body without a truthy
      `error.message`, such as `{}`, reports "Unknown error". */
  lemma IntendedUnknownError(status: nat, fields: seq<(string, Json)>)
    requires forall k :: 0 <= k < |fields| ==> fields[k].0 != "error"
    ensures ClassifyIntended(Response(false, status, Parsed(JObj(fields)))) == Failure(ApiError("Unknown error"))
    ensures ClassifyIntended(Response(false, status, Parsed(JObj([])))) == Failure(ApiError("Unknown error"))
  {
  }

  /** The body of a remote error `{"error": {"message": detail}}`. */
  function ErrorBody(detail: string): Json {
    JObj([("error", JObj([("message", JStr(detail))]))])
  }

  /** A 401 with `{"error": {"message": "invalid key"}}`: the code as
      written reports the generic status message, the intended handling
      reports the remote message. */
  lemma InvalidKeyResponse()
    ensures Classify(Response(false, 401, Parsed(ErrorBody("invalid key"))))
         == Failure(RequestFailed(401))
    ensures ClassifyIntended(Response(false, 401, Parsed(ErrorBody("invalid key"))))
         == Failure(ApiError("invalid key"))
    ensures Classify(Response(false, 401, Parsed(ErrorBody("invalid key"))))
         != ClassifyIntended(Response(false, 401, Parsed(ErrorBody("invalid key"))))
  {
  }

  /** With the intended handling, any non-empty remote error message is
      reported verbatim. */
  lemma IntendedReportsRemoteMessage(status: nat, detail: string)
    requires detail != ""
    ensures ClassifyIntended(Response(false, status, Parsed(ErrorBody(detail)))) == Failure(ApiError(detail))
  {
  }

  // ------------------------------------------------------------------ pipeline

  /** `sendToOpenRouter` as written, given the response the endpoint would
      return; a failure before the request makes the response irrelevant. */
  function Send(store: KeyStore.Storage, input: string, model: string, action: string, text: string,
                resp: Response): (r: Result<Option<Json>, Error>)
    ensures Prepare(store, input, model, action, text).Failure? ==>
      r == Failure(Prepare(store, input, model, action, text).error)
    ensures Prepare(store, input, model, action, text).Success? ==> r == Classify(resp)
  {
    var _ :- Prepare(store, input, model, action, text);
    Classify(resp)
  }

  /** Where `processText` gets its text: the whole page or the selection. */
  datatype TextSource = FullPage(page: Extraction.Page) | Selection(selection: string)

  /** The text `getText` yields: page extraction, or the trimmed selection. */
  function SourceText(src: TextSource): (r: Result<string, Error>)
    ensures src.FullPage? ==> r == Extraction.Extract(src.page)
    ensures src.Selection? ==> r == Success(Text.Trim(src.selection))
  {
    match src
    case FullPage(page) => Extraction.Extract(page)
    case Selection(raw) => Success(Text.Trim(raw))
  }

  /** `processText`: obtain the text, refuse an empty one, then send it. */
  function ProcessText(src: TextSource, store: KeyStore.Storage, input: string, model: string,
                       action: string, resp: Response): (r: Result<Option<Json>, Error>)
    ensures SourceText(src).Failure? ==> r == Failure(SourceText(src).error)
    ensures SourceText(src) == Success("") ==> r == Failure(NoTextToProcess)
    ensures SourceText(src).Success? && SourceText(src).value != "" ==>
      r == Send(store, input, model, action, SourceText(src).value, resp)
  {
    var text :- SourceText(src);
    if text == "" then Failure(NoTextToProcess)
    else Send(store, input, model, action, text, resp)
  }

  /** A selection of only whitespace is reported as no text, before any
      credential or action check. */
  lemma BlankSelectionNotSent(raw: string, store: KeyStore.Storage, input: string, model: string,
                              action: string, resp: Response)
    requires forall k :: 0 <= k < |raw| ==> Text.IsJsWhitespace(raw[k])
    ensures ProcessText(Selection(raw), store, input, model, action, resp) == Failure(NoTextToProcess)
  {
  }

  /** With no selected key and a blank key field nothing is sent: the
      outcome is the missing-key error for every action, text and
      response. */
  lemma SendMissingKey(store: KeyStore.Storage, input: string, model: string, action: string,
                       text: string, resp: Response)
    requires KeyStore.SelectedKey(store) == ""
    requires forall k :: 0 <= k < |input| ==> Text.IsJsWhitespace(input[k])
    ensures Send(store, input, model, action, text, resp) == Failure(MissingApiKey)
  {
  }

  /** With a key at hand, an unknown action is refused whatever the
      endpoint would answer. */
  lemma SendInvalidAction(store: KeyStore.Storage, input: string, model: string, action: string,
                          text: string, resp: Response)
    requires KeyStore.SelectedKey(store) != ""
    requires !IsKnownAction(action)
    ensures Send(store, input, model, action, text, resp) == Failure(InvalidAction)
  {
  }

  /** With a key and a known action, a completion in the documented shape
      yields its content. */
  lemma SendCompletion(store: KeyStore.Storage, input: string, model: string, action: string,
                       text: string, status: nat, content: string)
    requires KeyStore.SelectedKey(store) != ""
    requires IsKnownAction(action)
    ensures Send(store, input, model, action, text, Response(true, status, Parsed(CompletionBody(content))))
         == Success(Some(JStr(content)))
  {
    ClassifyCompletion(status, content);
  }

  /** With a key and a known action, every non-ok response ends in the
      generic status message, whatever error the endpoint described. */
  lemma SendHidesRemoteError(store: KeyStore.Storage, input: string, model: string, action: string,
                             text: string, status: nat, detail: string)
    requires KeyStore.SelectedKey(store) != ""
    requires IsKnownAction(action)
    ensures Send(store, input, model, action, text, Response(false, status, Parsed(ErrorBody(detail))))
         == Failure(RequestFailed(status))
  {
  }

  /** A selection with text in it is processed end to end: with a key and a
      known action, a documented completion yields its content. */
  lemma ProcessSelectionCompletion(raw: string, store: KeyStore.Storage, input: string, model: string,
                                   action: string, status: nat, content: string)
    requires exists k :: 0 <= k < |raw| && !Text.IsJsWhitespace(raw[k])
    requires KeyStore.SelectedKey(store) != ""
    requires IsKnownAction(action)
    ensures ProcessText(Selection(raw), store, input, model, action,
                        Response(true, status, Parsed(CompletionBody(content))))
         == Success(Some(JStr(content)))
  {
    SendCompletion(store, input, model, action, Text.Trim(raw), status, content);
  }

  /** A page without article, main element or long block is reported as
      having no suitable content, before any key or action check. */
  lemma ProcessPageWithoutContent(blocks: seq<string>, store: KeyStore.Storage, input: string,
                                  model: string, action: string, resp: Response)
    requires forall b :: b in blocks ==> !Extraction.IsLongBlock(b)
    ensures ProcessText(FullPage(Extraction.Page(None, None, blocks)), store, input, model, action, resp)
         == Failure(NoSuitableContent)
  {
  }
}
