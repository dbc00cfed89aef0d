/**
 * The modify flow of `PUT /api/ask-ai`: validate the request, obtain the
 * model's reply (when no API key is configured, a canned reply that quotes
 * the prompt and repeats the document), reject a blank reply, and apply the
 * reply's SEARCH/REPLACE blocks to the document.
 *
 * The chat-completion call is a parameter: the reply it produced, or the
 * message of the error it threw. Only the fields the flow reads are kept.
 */
module ModifyHandler {
  import opened Wrappers
  import opened JsText
  import opened PatchScan
  import opened PatchApply
  import opened PatchPipeline

  /**
   * The fields the modify flow reads from the JSON body, taken as already
   * parsed into an object; a missing field is `None`.
   */
  datatype ModifyRequest = ModifyRequest(prompt: Option<string>, html: Option<string>, apiKey: Option<string>)

  /**
   * What the chat-completion call gave back: the content of its first
   * choice (absent when there is no choice or no content), or an error with
   * its message (`""` when the error carries none).
   */
  datatype Completion = Replied(content: Option<string>) | Threw(message: string)

  /**
   * The JSON response: the patched document with its `updatedLines`, or an
   * error with its HTTP status, the name of the field that carries the
   * text (`error` or `message`) and the text.
   */
  datatype Response =
    | Updated(html: string, updatedLines: seq<LineRange>)
    | Failed(status: nat, key: string, text: string)

  const MissingFields: string := "Missing required fields"
  const EmptyReply: string := "Model returned empty response"
  const GenericError: string := "An error occurred while processing your request."
  const MockPreamble: string := "Here's an updated version of your HTML based on your request: \""

  /** A key in the request, or else in the environment, selects the real model. */
  predicate HasApiKey(req: ModifyRequest, env: map<string, string>) {
    Truthy(req.apiKey) || Truthy(Env(env, "OPENAI_API_KEY"))
  }

  /** The offline reply: a sentence quoting the request, a blank line, the document unchanged. */
  function MockReply(prompt: string, html: string): (chunk: string) {
    MockPreamble + prompt + "\"\n\n" + html
  }

  /** The reply text, or the message of the error the call threw. */
  function ReplyText(req: ModifyRequest, env: map<string, string>, completion: Completion): (r: Result<string, string>)
    requires Truthy(req.prompt) && Truthy(req.html)
  {
    if !HasApiKey(req, env) then
      Success(MockReply(req.prompt.value, req.html.value))
    else
      match completion
      case Threw(message) => Failure(message)
      case Replied(content) => Success(content.GetOr(""))
  }

  /** The whole modify flow, from request to response. */
  function HandleModify(req: ModifyRequest, env: map<string, string>, m: Markers, completion: Completion): (r: Response)
    requires m.Valid()
    ensures r.Failed? ==> r.status == 400 || r.status == 500
    ensures r.Failed? ==> r.text != []
  {
    if !Truthy(req.prompt) || !Truthy(req.html) then
      Failed(400, "error", MissingFields)
    else
      match ReplyText(req, env, completion)
      case Failure(message) =>
        Failed(500, "message", if message == [] then GenericError else message)
      case Success(chunk) =>
        if Trim(chunk) == [] then
          Failed(400, "message", EmptyReply)
        else
          var o := Run(chunk, m, req.html.value);
          Updated(o.html, o.updatedLines)
  }

  /**
   * The request is turned away with 400 and an `error` field exactly when
   * the prompt or the document is missing or empty; every other failure
   * uses a `message` field.
   */
  lemma MissingFieldsRejected(req: ModifyRequest, env: map<string, string>, m: Markers, completion: Completion)
    requires m.Valid()
    ensures var r := HandleModify(req, env, m, completion);
      && (r.Failed? && r.key == "error" <==> !Truthy(req.prompt) || !Truthy(req.html))
      && (r.Failed? && r.key == "error" ==> r.status == 400 && r.text == MissingFields)
  {
    var r := HandleModify(req, env, m, completion);
    if Truthy(req.prompt) && Truthy(req.html) && r.Failed? {
      assert r.key == "message";
      assert "message"[0] != "error"[0];
    }
  }

  /**
   * With an API key, a reply that is absent or only whitespace is rejected
   * with 400 and "Model returned empty response"; a reply with any other
   * character goes on to the patch pass.
   */
  lemma BlankReplyRejected(req: ModifyRequest, env: map<string, string>, m: Markers, content: Option<string>)
    requires m.Valid() && Truthy(req.prompt) && Truthy(req.html) && HasApiKey(req, env)
    ensures var r := HandleModify(req, env, m, Replied(content));
      && (IsBlank(content.GetOr("")) ==> r == Failed(400, "message", EmptyReply))
      && (!IsBlank(content.GetOr("")) ==> r.Updated?)
  {
    TrimEmptyIffBlank(content.GetOr(""));
  }

  /** The offline reply always has a character that is not whitespace: the quote that opens the request. */
  lemma MockReplyNotBlank(prompt: string, html: string)
    ensures !IsBlank(MockReply(prompt, html))
  {
    var c := MockReply(prompt, html);
    var q := |MockPreamble| - 1;
    assert MockPreamble[q] == '"';
    assert c == MockPreamble + (prompt + "\"\n\n" + html);
    assert c[q] == '"';
    assert !IsJsWhitespace(c[q]);
  }

  /** Without an API key the flow never reports an empty reply nor an error from the model. */
  lemma OfflineAlwaysUpdates(req: ModifyRequest, env: map<string, string>, m: Markers, completion: Completion)
    requires m.Valid() && Truthy(req.prompt) && Truthy(req.html) && !HasApiKey(req, env)
    ensures var r := HandleModify(req, env, m, completion);
      var o := Run(MockReply(req.prompt.value, req.html.value), m, req.html.value);
      && r.Updated?
      && r.html == o.html
      && r.updatedLines == o.updatedLines
  {
    MockReplyNotBlank(req.prompt.value, req.html.value);
    TrimEmptyIffBlank(MockReply(req.prompt.value, req.html.value));
  }

  /**
   * Offline, when the request and the document hold no complete block, the
   * document comes back as it was with no updated lines.
   */
  lemma OfflineKeepsDocument(req: ModifyRequest, env: map<string, string>, m: Markers, completion: Completion)
    requires m.Valid() && Truthy(req.prompt) && Truthy(req.html) && !HasApiKey(req, env)
    requires !HasTriple(MockReply(req.prompt.value, req.html.value), m, 0)
    ensures var r := HandleModify(req, env, m, completion);
      r.Updated? && r.html == req.html.value && r.updatedLines == []
  {
    OfflineAlwaysUpdates(req, env, m, completion);
    NoCompleteBlockKeepsDocument(MockReply(req.prompt.value, req.html.value), m, req.html.value);
  }

  /**
   * With an API key, an error thrown by the call becomes 500 with its
   * message, or with a generic message when it has none.
   */
  lemma ThrownErrorReported(req: ModifyRequest, env: map<string, string>, m: Markers, message: string)
    requires m.Valid() && Truthy(req.prompt) && Truthy(req.html) && HasApiKey(req, env)
    ensures var r := HandleModify(req, env, m, Threw(message));
      && r.Failed? && r.status == 500 && r.key == "message"
      && (message != [] ==> r.text == message)
      && (message == [] ==> r.text == GenericError)
  {
  }

  /**
   * A successful response is the patch pass over a reply that is not blank,
   * and every line range it reports names at least one line.
   */
  lemma UpdatedIsPatchPass(req: ModifyRequest, env: map<string, string>, m: Markers, completion: Completion)
    requires m.Valid()
    requires HandleModify(req, env, m, completion).Updated?
    ensures Truthy(req.prompt) && Truthy(req.html)
    ensures ReplyText(req, env, completion).Success?
    ensures var chunk := ReplyText(req, env, completion).value;
      var r := HandleModify(req, env, m, completion);
      && !IsBlank(chunk)
      && r.html == Run(chunk, m, req.html.value).html
      && r.updatedLines == Run(chunk, m, req.html.value).updatedLines
      && AllRangesOk(r.updatedLines)
      && |r.updatedLines| <= CountFrom(chunk, m.replaceEnd, 0)
  {
    var chunk := ReplyText(req, env, completion).value;
    TrimEmptyIffBlank(chunk);
    ApplyAllRangesOk(req.html.value, Blocks(Scan(chunk, m, 0)));
  }

  /**
   * The handler as the route runs it, with the block loop as a loop. It
   * answers 400 with an `error` field exactly when the prompt or the
   * document is missing; offline it always updates; with a key, a thrown
   * error is a 500 carrying its message, and a reply is rejected with 400
   * exactly when it is blank. An update is the patch pass over the reply,
   * and every range it reports names at least one line. It gives the
   * response the modify flow describes.
   */
  method Modify(req: ModifyRequest, env: map<string, string>, m: Markers, completion: Completion)
    returns (r: Response)
    requires m.Valid()
    ensures r.Failed? && r.key == "error" <==> !Truthy(req.prompt) || !Truthy(req.html)
    ensures r.Failed? && r.key == "error" ==> r.status == 400 && r.text == MissingFields
    ensures r.Failed? ==> (r.status == 400 || r.status == 500) && r.text != []
    ensures Truthy(req.prompt) && Truthy(req.html) && !HasApiKey(req, env) ==> r.Updated?
    ensures Truthy(req.prompt) && Truthy(req.html) && HasApiKey(req, env) && completion.Threw? ==>
      && r.Failed? && r.status == 500 && r.key == "message"
      && r.text == (if completion.message == [] then GenericError else completion.message)
    ensures Truthy(req.prompt) && Truthy(req.html) && HasApiKey(req, env) && completion.Replied? ==>
      && (r.Failed? <==> IsBlank(completion.content.GetOr("")))
      && (r.Failed? ==> r.status == 400 && r.key == "message" && r.text == EmptyReply)
    ensures r.Updated? ==>
      && Truthy(req.prompt) && Truthy(req.html)
      && ReplyText(req, env, completion).Success?
      && !IsBlank(ReplyText(req, env, completion).value)
      && r.html == Run(ReplyText(req, env, completion).value, m, req.html.value).html
      && r.updatedLines == Run(ReplyText(req, env, completion).value, m, req.html.value).updatedLines
      && AllRangesOk(r.updatedLines)
    ensures r.Updated? <==> HandleModify(req, env, m, completion).Updated?
    ensures r.Updated? ==>
      && r.html == HandleModify(req, env, m, completion).html
      && r.updatedLines == HandleModify(req, env, m, completion).updatedLines
    ensures r.Failed? ==>
      && r.status == HandleModify(req, env, m, completion).status
      && r.key == HandleModify(req, env, m, completion).key
      && r.text == HandleModify(req, env, m, completion).text
  {
    MissingFieldsRejected(req, env, m, completion);
    if HandleModify(req, env, m, completion).Updated? {
      UpdatedIsPatchPass(req, env, m, completion);
    }
    if Truthy(req.prompt) && Truthy(req.html) {
      if !HasApiKey(req, env) {
        OfflineAlwaysUpdates(req, env, m, completion);
      } else if completion.Threw? {
        ThrownErrorReported(req, env, m, completion.message);
      } else {
        BlankReplyRejected(req, env, m, completion.content);
      }
    }
    if !Truthy(req.prompt) || !Truthy(req.html) {
      return Failed(400, "error", MissingFields);
    }
    var html := req.html.value;
    var chunk: string;
    if !HasApiKey(req, env) {
      chunk := MockReply(req.prompt.value, html);
    } else {
      match completion
      case Threw(message) =>
        return Failed(500, "message", if message == [] then GenericError else message);
      case Replied(content) =>
        chunk := content.GetOr("");
    }
    if Trim(chunk) == [] {
      return Failed(400, "message", EmptyReply);
    }
    var newHtml, updatedLines := ApplyBlocks(chunk, m, html);
    r := Updated(newHtml, updatedLines);
  }
}
