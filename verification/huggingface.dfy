/**
 * The pure helpers of the Hugging Face client: stripping an echoed prompt
 * from generated text, resolving a model name to an inference endpoint
 * through the model registry, and building the prompt of the modify flow.
 *
 * Environment variables read with `process.env.X ?? fallback` are a map
 * parameter: a variable that is set, even to the empty string, wins over
 * the fallback, as `??` only replaces `undefined`.
 */
module HuggingFace {
  import opened Wrappers
  import opened JsText

  // ---------------------------------------------------------------------------
  // removePromptPrefix
  // ---------------------------------------------------------------------------

  /** Generated text with the prompt cut off its front, when it starts with it. */
  function RemovePromptPrefix(generated: string, prompt: string): (r: string)
    ensures |r| <= |generated|
  {
    if !StartsWith(generated, prompt) then generated
    else generated[|prompt|..]
  }

  /** Text that does not start with the prompt comes back unchanged. */
  lemma RemovePromptPrefixKeepsOther(generated: string, prompt: string)
    requires !StartsWith(generated, prompt)
    ensures RemovePromptPrefix(generated, prompt) == generated
  {
  }

  /**
   * Text that starts with the prompt loses exactly the prompt: putting the
   * prompt back in front restores the text.
   */
  lemma RemovePromptPrefixCutsPrompt(generated: string, prompt: string)
    requires StartsWith(generated, prompt)
    ensures prompt + RemovePromptPrefix(generated, prompt) == generated
    ensures |RemovePromptPrefix(generated, prompt)| == |generated| - |prompt|
  {
    assert generated[..|prompt|] == prompt;
    assert generated == generated[..|prompt|] + generated[|prompt|..];
  }

  /** An echoed prompt followed by any text gives back exactly that text. */
  lemma RemovePromptPrefixRoundTrip(prompt: string, text: string)
    ensures RemovePromptPrefix(prompt + text, prompt) == text
  {
    assert (prompt + text)[..|prompt|] == prompt;
    assert (prompt + text)[|prompt|..] == text;
  }

  /** The empty prompt removes nothing. */
  lemma RemovePromptPrefixEmpty(generated: string)
    ensures RemovePromptPrefix(generated, "") == generated
  {
    assert generated[..0] == "";
    assert generated[0..] == generated;
  }

  // ---------------------------------------------------------------------------
  // Model registry and resolveModelUrl
  // ---------------------------------------------------------------------------

  const InferencePrefix: string := "https://api-inference.huggingface.co/models/"

  const Key7B: string := "qwen3-coder-7b-instruct"
  const Key30B: string := "qwen3-coder-30b-instruct"
  const Key14B: string := "qwen2.5-14b-instruct"

  /** The default model id, overridable through the environment. */
  function DefaultModelId(env: map<string, string>): string {
    EnvOr(env, "HF_QWEN3_CODER_7B_MODEL_ID", "Qwen/Qwen3-Coder-7B-Instruct")
  }

  /** `DEFAULT_API_URL`: `HF_API_URL`, or the inference endpoint of the default model. */
  function DefaultApiUrl(env: map<string, string>): string {
    EnvOr(env, "HF_API_URL", InferencePrefix + DefaultModelId(env))
  }

  /** `MODEL_REGISTRY`: three model names, each with an overridable model id. */
  function Registry(env: map<string, string>): (reg: map<string, string>)
    ensures reg.Keys == {Key7B, Key30B, Key14B}
  {
    map[
      Key7B := EnvOr(env, "HF_QWEN3_CODER_7B_MODEL_ID", "Qwen/Qwen3-Coder-7B-Instruct"),
      Key30B := EnvOr(env, "HF_QWEN3_CODER_30B_MODEL_ID", "Qwen/Qwen3-Coder-30B-A3B-Instruct"),
      Key14B := EnvOr(env, "HF_QWEN_MODEL_ID", "Qwen/Qwen2.5-14B-Instruct")
    ]
  }

  /** The URL for a registry entry: verbatim when it is already a URL. */
  function EntryUrl(entry: string): (url: string)
    ensures StartsWith(entry, "http") ==> url == entry
    ensures !StartsWith(entry, "http") ==> url == InferencePrefix + entry
  {
    if StartsWith(entry, "http") then entry else InferencePrefix + entry
  }

  /**
   * `resolveModelUrl`, with lookups confined to the registry's own keys:
   * no model, a name outside the registry or an empty entry give the
   * default URL; an entry that starts with "http" is used verbatim;
   * any other entry is a model id on the inference endpoint.
   */
  function ResolveModelUrl(env: map<string, string>, model: Option<string>): (url: string)
  {
    if !Truthy(model) then DefaultApiUrl(env)
    else if model.value !in Registry(env) || Registry(env)[model.value] == [] then DefaultApiUrl(env)
    else EntryUrl(Registry(env)[model.value])
  }

  /** No model, or a name the registry does not hold, resolves to the default URL. */
  lemma ResolveModelUrlDefault(env: map<string, string>, model: Option<string>)
    requires !Truthy(model) || model.value !in {Key7B, Key30B, Key14B}
    ensures ResolveModelUrl(env, model) == DefaultApiUrl(env)
  {
  }

  /**
   * A registry name with a non-empty entry resolves to the entry itself
   * when it starts with "http", and to the entry on the inference endpoint
   * otherwise.
   */
  lemma ResolveModelUrlEntry(env: map<string, string>, name: string)
    requires name in {Key7B, Key30B, Key14B} && Registry(env)[name] != []
    ensures var entry := Registry(env)[name];
      && (StartsWith(entry, "http") ==> ResolveModelUrl(env, Some(name)) == entry)
      && (!StartsWith(entry, "http") ==> ResolveModelUrl(env, Some(name)) == InferencePrefix + entry)
  {
  }

  // ---------------------------------------------------------------------------
  // resolveModelUrl as written: a plain-object lookup
  // ---------------------------------------------------------------------------

  /**
   * The names a plain JavaScript object inherits from `Object.prototype`.
   * Looking one of them up in the registry object yields a function (or, for
   * `__proto__`, the prototype object) instead of `undefined`.
   */
  const InheritedNames: set<string> := {
    "constructor", "__proto__", "toString", "toLocaleString", "valueOf",
    "hasOwnProperty", "isPrototypeOf", "propertyIsEnumerable",
    "__defineGetter__", "__defineSetter__", "__lookupGetter__", "__lookupSetter__"
  }

  /** No inherited name is a model name: model names start with 'q', inherited ones do not. */
  lemma InheritedNamesAreNotModels(env: map<string, string>)
    ensures forall n :: n in InheritedNames ==> n !in Registry(env)
  {
    forall n | n in InheritedNames
      ensures n != [] && n[0] != 'q'
    {
    }
    forall n | n in Registry(env)
      ensures n != [] && n[0] == 'q'
    {
    }
  }

  /** What `MODEL_REGISTRY[name]` evaluates to. */
  datatype Lookup = Missing | Entry(entry: string) | Inherited

  function LookupAsWritten(env: map<string, string>, name: string): (v: Lookup)
    ensures name in Registry(env) ==> v == Entry(Registry(env)[name])
    ensures name !in Registry(env) && name in InheritedNames ==> v == Inherited
    ensures name !in Registry(env) && name !in InheritedNames ==> v == Missing
  {
    if name in Registry(env) then Entry(Registry(env)[name])
    else if name in InheritedNames then Inherited
    else Missing
  }

  /**
   * `resolveModelUrl` as written: an inherited member is truthy, passes the
   * `!registryEntry` test, and has no `startsWith`, so the call throws a
   * `TypeError`.
   */
  function ResolveModelUrlAsWritten(env: map<string, string>, model: Option<string>): (r: Result<string, string>)
  {
    if !Truthy(model) then Success(DefaultApiUrl(env))
    else
      match LookupAsWritten(env, model.value)
      case Missing => Success(DefaultApiUrl(env))
      case Entry(e) => if e == [] then Success(DefaultApiUrl(env)) else Success(EntryUrl(e))
      case Inherited => Failure("TypeError: registryEntry.startsWith is not a function")
  }

  /** The model name "toString" makes the code as written throw instead of falling back. */
  lemma ResolveModelUrlAsWrittenThrows(env: map<string, string>)
    ensures ResolveModelUrlAsWritten(env, Some("toString")).Failure?
    ensures ResolveModelUrl(env, Some("toString")) == DefaultApiUrl(env)
  {
    InheritedNamesAreNotModels(env);
  }

  /** Outside the inherited names, the code as written and the corrected function agree. */
  lemma ResolveModelUrlAgrees(env: map<string, string>, model: Option<string>)
    requires !Truthy(model) || model.value !in InheritedNames
    ensures ResolveModelUrlAsWritten(env, model) == Success(ResolveModelUrl(env, model))
  {
  }

  /** The code as written fails exactly on the inherited names. */
  lemma ResolveModelUrlAsWrittenFailsIff(env: map<string, string>, model: Option<string>)
    ensures ResolveModelUrlAsWritten(env, model).Failure? <==> Truthy(model) && model.value in InheritedNames
  {
    InheritedNamesAreNotModels(env);
  }

  // ---------------------------------------------------------------------------
  // buildModifyPrompt
  // ---------------------------------------------------------------------------

  const NoPreviousContext: string := "No previous context supplied."
  const ContextHead: string := "\n\nPrevious request context: "
  const HtmlHead: string := "\n\nCurrent HTML:\n```html\n"
  const HtmlTail: string := "\n```\n\n"
  const SelectionHead: string := "Only modify the following element:\n```html\n"
  const SelectionTail: string := "\n```\n"
  const RequestHead: string := "\nUser request:\n"
  const ClosingLine: string := "\n\nEnsure you follow the SEARCH/REPLACE instructions exactly."

  /** The previous request, or a fixed note when there is none, then the head of the document fence. */
  function ContextSection(previousPrompt: Option<string>): string {
    ContextHead + previousPrompt.GetOr(NoPreviousContext) + HtmlHead
  }

  /** The selected-element section: present only for a non-empty selection. */
  function SelectionSection(selected: Option<string>): string {
    if Truthy(selected) then SelectionHead + selected.value + SelectionTail else ""
  }

  /** The user's request and the closing instruction. */
  function RequestSection(prompt: string): string {
    (RequestHead + prompt) + ClosingLine
  }

  /** Everything before the current document. */
  function ModifyPromptHead(followUp: string, previousPrompt: Option<string>): string {
    followUp + ContextSection(previousPrompt)
  }

  /** Everything after the current document. */
  function ModifyPromptTail(prompt: string, selected: Option<string>): string {
    HtmlTail + SelectionSection(selected) + RequestSection(prompt)
  }

  /**
   * The prompt of the modify flow: the follow-up system prompt, the
   * previous request (or a fixed note when there is none), the current
   * document in a fenced block, the selected element when there is one,
   * the user's request and a closing instruction.
   */
  function BuildModifyPrompt(followUp: string, prompt: string, html: string,
                             previousPrompt: Option<string>, selected: Option<string>): (r: string)
  {
    ModifyPromptHead(followUp, previousPrompt) + html + ModifyPromptTail(prompt, selected)
  }

  /** Where the current document starts in the modify prompt. */
  function HtmlOffset(followUp: string, previousPrompt: Option<string>): nat {
    |followUp| + |ContextHead| + |previousPrompt.GetOr(NoPreviousContext)| + |HtmlHead|
  }

  /** Where each part of a prompt shaped like the modify prompt sits. */
  lemma PromptShape(f: string, ch: string, p: string, hh: string, html: string,
                                       ht: string, sel: string, rq: string, cl: string)
    ensures var r := (f + (ch + p + hh)) + html + (ht + sel + (rq + cl));
      var h := |f| + |ch| + |p| + |hh|;
      var k := h + |html| + |ht|;
      && |r| == k + |sel| + |rq| + |cl|
      && OccursAt(r, f, 0)
      && OccursAt(r, p, |f| + |ch|)
      && OccursAt(r, html, h)
      && OccursAt(r, sel, k)
      && OccursAt(r, rq, k + |sel|)
      && OccursAt(r, rq + cl, k + |sel|)
  {
    var r := (f + (ch + p + hh)) + html + (ht + sel + (rq + cl));
    var h := |f| + |ch| + |p| + |hh|;
    var k := h + |html| + |ht|;
    assert r[|f| + |ch|..|f| + |ch| + |p|] == p;
    assert r[k..k + |sel|] == sel;
    assert r[k + |sel|..k + |sel| + |rq|] == rq;
  }

  /**
   * The modify prompt starts with the system prompt, carries the current
   * document verbatim at a fixed place, and ends with the user's request
   * followed by the closing instruction.
   */
  lemma ModifyPromptLayout(followUp: string, prompt: string, html: string,
                                              previousPrompt: Option<string>, selected: Option<string>)
    ensures var r := BuildModifyPrompt(followUp, prompt, html, previousPrompt, selected);
      var req := RequestHead + prompt + ClosingLine;
      && StartsWith(r, followUp)
      && OccursAt(r, html, HtmlOffset(followUp, previousPrompt))
      && |req| <= |r|
      && OccursAt(r, req, |r| - |req|)
  {
    var r := BuildModifyPrompt(followUp, prompt, html, previousPrompt, selected);
    var sel := SelectionSection(selected);
    var req := RequestHead + prompt + ClosingLine;
    PromptShape(followUp, ContextHead, previousPrompt.GetOr(NoPreviousContext), HtmlHead, html,
                HtmlTail, sel, RequestHead + prompt, ClosingLine);
    var k := HtmlOffset(followUp, previousPrompt) + |html| + |HtmlTail|;
    assert |r| - |req| == k + |sel|;
  }

  /** Where the selected-element section starts in the modify prompt. */
  function SelectionOffset(followUp: string, html: string, previousPrompt: Option<string>): nat {
    HtmlOffset(followUp, previousPrompt) + |html| + |HtmlTail|
  }

  /** A non-empty selection appears, after its heading, right after the fenced document. */
  lemma ModifyPromptWithSelection(followUp: string, prompt: string, html: string,
                                                     previousPrompt: Option<string>, selected: Option<string>)
    requires Truthy(selected)
    ensures var r := BuildModifyPrompt(followUp, prompt, html, previousPrompt, selected);
      var k := SelectionOffset(followUp, html, previousPrompt);
      && OccursAt(r, SelectionHead, k)
      && OccursAt(r, selected.value, k + |SelectionHead|)
  {
    var r := BuildModifyPrompt(followUp, prompt, html, previousPrompt, selected);
    var k := SelectionOffset(followUp, html, previousPrompt);
    var sel := SelectionHead + selected.value + SelectionTail;
    assert SelectionSection(selected) == sel;
    PromptShape(followUp, ContextHead, previousPrompt.GetOr(NoPreviousContext), HtmlHead, html,
                HtmlTail, sel, RequestHead + prompt, ClosingLine);
    OccursAtParts(r, SelectionHead, selected.value, SelectionTail, k);
  }

  /** Without a selection the user request follows the fenced document directly. */
  lemma ModifyPromptWithoutSelection(followUp: string, prompt: string, html: string,
                                                        previousPrompt: Option<string>, selected: Option<string>)
    requires !Truthy(selected)
    ensures var r := BuildModifyPrompt(followUp, prompt, html, previousPrompt, selected);
      var k := SelectionOffset(followUp, html, previousPrompt);
      && OccursAt(r, RequestHead + prompt, k)
      && !OccursAt(r, SelectionHead, k)
  {
    var r := BuildModifyPrompt(followUp, prompt, html, previousPrompt, selected);
    var k := SelectionOffset(followUp, html, previousPrompt);
    var rq := RequestHead + prompt;
    PromptShape(followUp, ContextHead, previousPrompt.GetOr(NoPreviousContext), HtmlHead, html,
                HtmlTail, [], rq, ClosingLine);
    assert OccursAt(r, rq, k);
    assert r[k] == rq[0] == '\n';
    assert SelectionHead[0] == 'O';
    if k + |SelectionHead| <= |r| {
      assert r[k..k + |SelectionHead|][0] == r[k];
    }
  }

  /**
   * The selected-element section follows the fenced document exactly when
   * a non-empty selection is given; otherwise the user request follows it
   * directly.
   */
  lemma ModifyPromptSelection(followUp: string, prompt: string, html: string,
                                                 previousPrompt: Option<string>, selected: Option<string>)
    ensures var r := BuildModifyPrompt(followUp, prompt, html, previousPrompt, selected);
      var k := SelectionOffset(followUp, html, previousPrompt);
      && (OccursAt(r, SelectionHead, k) <==> Truthy(selected))
      && (Truthy(selected) ==> OccursAt(r, selected.value, k + |SelectionHead|))
      && (!Truthy(selected) ==> OccursAt(r, RequestHead + prompt, k))
  {
    if Truthy(selected) {
      ModifyPromptWithSelection(followUp, prompt, html, previousPrompt, selected);
    } else {
      ModifyPromptWithoutSelection(followUp, prompt, html, previousPrompt, selected);
    }
  }

  /** An absent previous request is replaced by the fixed note; a given one, even empty, is kept. */
  lemma ModifyPromptContext(followUp: string, prompt: string, html: string,
                                               previousPrompt: Option<string>, selected: Option<string>)
    ensures var r := BuildModifyPrompt(followUp, prompt, html, previousPrompt, selected);
      var at := |followUp| + |ContextHead|;
      && (previousPrompt.None? ==> OccursAt(r, NoPreviousContext, at))
      && (previousPrompt.Some? ==> OccursAt(r, previousPrompt.value, at))
  {
    PromptShape(followUp, ContextHead, previousPrompt.GetOr(NoPreviousContext), HtmlHead, html,
                HtmlTail, SelectionSection(selected), RequestHead + prompt, ClosingLine);
  }
}
