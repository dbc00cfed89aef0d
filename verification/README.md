# DeepSite patch engine, model resolution and project saving, in Dafny

DeepSite is a web application that asks a language model to write or edit
an HTML page. This project models the pure core of three of its pieces.

- **The modify flow of `PUT /api/ask-ai`.** The request must carry a prompt
  and a document. Without an API key the reply is a canned text that
  quotes the prompt and repeats the document; otherwise it is the content
  of the chat completion. A blank reply is rejected. The reply is then
  read as a sequence of `SEARCH_START … DIVIDER … REPLACE_END` blocks, and each is applied in
  order to the document:
  - a search text that trims to nothing prepends the replace text;
  - otherwise the first verbatim occurrence of the search text is
    replaced;
  - each applied block reports the 1-based inclusive line range it
    occupies right after that block is applied (`updatedLines`); later
    blocks can shift those lines.
- **The pure helpers of the Hugging Face client** (`lib/huggingface.ts`):
  - stripping an echoed prompt from generated text;
  - resolving a model name to an inference URL through `MODEL_REGISTRY`;
  - building the modify prompt.
- **The rules of `POST /api/projects` that decide how a project is saved:**
  - the semantic-version check;
  - the base slug and the search for a free slug;
  - the reuse of an existing project under the base slug;
  - the summary of the version record.

JavaScript strings are `seq<char>`. The string operations the code relies on
are defined in `JsText` with their JavaScript edge cases:
- `indexOf` clamps its start;
- `substring` clamps and swaps its bounds;
- `trim` removes the ECMAScript whitespace and line-terminator set;
- `split("\n").length` is one more than the number of newlines;
- `replace` with a string pattern replaces the first occurrence only.

The three markers come from the prompts module, which is not part of this
model, so they are a `Markers` parameter. Its only demand is a non-empty
closing marker. An empty one is found at the divider's own index, so the
cursor lands inside the block instead of past it, and the loop has no
decreasing measure.

Environment variables (`process.env.X ?? fallback`) are a map parameter. The
chat completion is a `Completion` parameter: the reply it produced, or the
message of the error it threw. The database is the set of slugs an owner
already has. The output of `slugify` and the clock reading are inputs.

The request body is taken as an already-parsed JSON object. The missing-field
rejection (`route.ts` 137–142) answers 400 with an `error` field; every other
failure the handler answers itself uses `message`
(`ModifyHandler.MissingFieldsRejected`).

Modules, one per file:

| module | what it holds |
|---|---|
| `Wrappers` | `Option` and `Result` |
| `Seqs` | generic sequence facts |
| `JsText` | JavaScript string operations, truthiness, environment lookups |
| `PatchScan` | one step of the block scanner, the whole scan |
| `ScanFacts` | what the scan guarantees over a whole reply, and the read-back of a written-out block |
| `PatchApply` | one block applied to the document, with its line range |
| `PatchPipeline` | all blocks applied in order; the handler's loop as a method |
| `ModifyHandler` | the modify flow from request to response |
| `HuggingFace` | `removePromptPrefix`, `resolveModelUrl`, `buildModifyPrompt` |
| `Projects` | `ensureUniqueSlug`, `baseSlug`, slug reuse, the version rule, the summary |

## Model

| member | source | states |
|---|---|---|
| JsText.IndexOfFirst | deepsite-full/app/api/ask-ai/route.ts:190-206 | `indexOf` answers -1 exactly when the needle occurs nowhere from the clamped start; otherwise it answers the first occurrence at or after that start |
| JsText.IndexOfFinds | deepsite-full/app/api/ask-ai/route.ts:190-206 | Where the first occurrence from a start is known, `indexOf` answers it |
| JsText.Substring | deepsite-full/app/api/ask-ai/route.ts:208-215 | `substring` with ordered in-range bounds is the slice between them; with reversed bounds it is the slice between them swapped |
| JsText.SpliceParts | deepsite-full/app/api/ask-ai/route.ts:229 | A splice keeps the text before the cut, holds the inserted text, then the text after the cut |
| JsText.ReplaceFirstSplices | deepsite-full/app/api/ask-ai/route.ts:229 | `replace` with a string pattern changes only the first occurrence: the text before it, the replacement, the text after it |
| JsText.TrimCutsBlankEnds | deepsite-full/app/api/ask-ai/route.ts:217 | `trim` removes a blank prefix and a blank suffix and nothing from the middle |
| JsText.TrimEdgesNotBlank | deepsite-full/app/api/ask-ai/route.ts:217 | A trimmed string neither starts nor ends with whitespace |
| JsText.TrimEmptyIffBlank | deepsite-full/app/api/ask-ai/route.ts:176 | A string trims to `""` exactly when every character is whitespace |
| JsText.SplitLength | deepsite-full/app/api/ask-ai/route.ts:219 | `split` on a character gives one part more than there are separators |
| JsText.SplitJoin | deepsite-full/app/api/ask-ai/route.ts:224-225 | Joining the parts of a split with the separator restores the string |
| JsText.SplitPartsFree | deepsite-full/app/api/ask-ai/route.ts:224-225 | No part of a split holds the separator |
| JsText.SplitHead | deepsite-full/app/api/ask-ai/route.ts:224-225 | A separator-free head followed by the separator is split off as the first part |
| JsText.LineCountAppend | deepsite-full/app/api/ask-ai/route.ts:224-226 | The line count of a concatenation is the sum of the counts minus one, as the last line of the first part continues into the second |
| PatchScan.NextBlock | deepsite-full/app/api/ask-ai/route.ts:190-215 | A found block lies at or after the cursor with its markers in order, and the next cursor is just past its closing marker |
| PatchScan.NextBlockNoneIff | deepsite-full/app/api/ask-ai/route.ts:190-206 | The scanner stops exactly when no opening marker, then divider, then closing marker is left from the cursor |
| PatchScan.NextBlockFinds | deepsite-full/app/api/ask-ai/route.ts:190-202 | A found block uses the first opening marker from the cursor, the first divider from that marker's start, the first closing marker from the divider's start |
| PatchScan.NextBlockMarkersOccur | deepsite-full/app/api/ask-ai/route.ts:190-206 | The three markers of a found block occur where the scanner says |
| ScanFacts.ScanWithin | deepsite-full/app/api/ask-ai/route.ts:189-234 | Every block read lies in the reply at or after the starting cursor |
| ScanFacts.ScanInOrder | deepsite-full/app/api/ask-ai/route.ts:233 | Each block starts at or after the end of the one before: blocks are read left to right, none twice |
| ScanFacts.ScanFollowsCursor | deepsite-full/app/api/ask-ai/route.ts:189-234 | Scan: each block is the one the scanner finds from the cursor the previous block left behind |
| ScanFacts.ScanEndIsFinal | deepsite-full/app/api/ask-ai/route.ts:189-234 | The loop stops just past the last closing marker it consumed, and no complete block is left after that |
| ScanFacts.ScanStepUsesMarker | deepsite-full/app/api/ask-ai/route.ts:202-233 | Reading one block steps over at least one closing marker |
| ScanFacts.ScanBoundedByClosingMarkers | deepsite-full/app/api/ask-ai/route.ts:189-234 | The loop applies at most as many blocks as there are closing markers in the reply |
| ScanFacts.NoDividerNoBlocks | deepsite-full/app/api/ask-ai/route.ts:196-200 | A reply without a divider, such as a truncated block, yields no block and leaves the cursor where it was |
| ScanFacts.SeparatedOccurrences | deepsite-full/app/api/ask-ai/route.ts:196 | When no occurrence of one marker can start inside another, the second found at or after the first's start lies past its end |
| ScanFacts.BlockTextsBetweenMarkers | deepsite-full/app/api/ask-ai/route.ts:196-215 | With markers that cannot overlap, the texts are exactly what lies between them, and the consumed stretch is the block written out with its markers |
| ScanFacts.EncodeParts | deepsite-full/app/api/ask-ai/route.ts:208-215 | In a written-out block, the opening marker is at the front and the two texts sit between the markers |
| ScanFacts.NothingAtEnd | deepsite-full/app/api/ask-ai/route.ts:190-194 | From the end of the reply no block is read and the cursor stays put |
| ScanFacts.DecodeFirstStep | deepsite-full/app/api/ask-ai/route.ts:190-215 | The scanner's first step over a written-out block cuts out its two texts and moves to the end |
| ScanFacts.DecodeEncode | deepsite-full/app/api/ask-ai/route.ts:183-234 | A block written out with its markers reads back as exactly that block, when neither text holds a marker found first |
| PatchApply.Apply | deepsite-full/app/api/ask-ai/route.ts:217-231 | Whatever range a block reports starts at line 1 or later and names at least one line |
| PatchApply.ApplyPrepends | deepsite-full/app/api/ask-ai/route.ts:217-219 | A blank search text puts the replace text and a newline in front; the range runs from line 1 to the line where the inserted text ends |
| PatchApply.ApplySkipsAbsent | deepsite-full/app/api/ask-ai/route.ts:221-222 | A non-blank search text reports nothing exactly when it does not occur, and then the document is unchanged |
| PatchApply.Prepend | deepsite-full/app/api/ask-ai/route.ts:218-219 | The prepend branch always reports a well-formed range |
| PatchApply.ReplaceAt | deepsite-full/app/api/ask-ai/route.ts:223-229 | The replace branch always reports a well-formed range |
| PatchApply.ApplyTakesReplaceBranch | deepsite-full/app/api/ask-ai/route.ts:217-222 | A non-blank search text that occurs takes the replace branch at the index `indexOf` reports |
| PatchApply.ApplyReplacesFirstMatch | deepsite-full/app/api/ask-ai/route.ts:221-229 | A non-blank search text that occurs is replaced at its first occurrence from the start of the document, and only there: the replacement is spliced in over that match |
| PatchApply.SpliceLineAt | deepsite-full/app/api/ask-ai/route.ts:223-226 | After a splice, the inserted text ends on the line where the cut began plus its own newlines |
| PatchApply.ReplaceKeepsSurroundings | deepsite-full/app/api/ask-ai/route.ts:229 | A replacement keeps the text before and after the match and puts the replace text in its place |
| PatchApply.ReplaceRangeArithmetic | deepsite-full/app/api/ask-ai/route.ts:223-228 | The reported start is the line of the match; the end adds the replace text's line count minus one |
| PatchApply.ReplaceRangeCoversReplacement | deepsite-full/app/api/ask-ai/route.ts:223-229 | The reported range is exactly the lines the replace text occupies in the new document, from the line where it starts to the line where it ends |
| PatchApply.ReplaceExample | deepsite-full/app/api/ask-ai/route.ts:217-231 | The worked example: the block gives "a\nb\nX\nY\nc" and reports lines 3 to 4 |
| PatchPipeline.ApplyAll | deepsite-full/app/api/ask-ai/route.ts:185-234 | At most one range per block is reported |
| PatchPipeline.ApplyAllRangesOk | deepsite-full/app/api/ask-ai/route.ts:185-228 | Every range in `updatedLines` is well formed |
| PatchPipeline.ApplyAllAppend | deepsite-full/app/api/ask-ai/route.ts:189-234 | Applying two runs of blocks in turn is applying their concatenation, with the ranges concatenated |
| PatchPipeline.Run | deepsite-full/app/api/ask-ai/route.ts:183-234 | The pass reports at most as many ranges as there are closing markers in the reply |
| PatchPipeline.NoCompleteBlockKeepsDocument | deepsite-full/app/api/ask-ai/route.ts:189-206 | A reply without a complete block leaves the document unchanged and reports nothing |
| PatchPipeline.ResumeStep | deepsite-full/app/api/ask-ai/route.ts:189-234 | One loop iteration keeps what is left to do unchanged |
| PatchPipeline.FindBlock | deepsite-full/app/api/ask-ai/route.ts:190-215 | A block is found exactly when an opening marker, a divider at or after its start and a closing marker at or after the divider's start remain from the cursor. Each marker found is the first such occurrence; the texts are cut between them; the cursor moves past the closing marker |
| PatchPipeline.ApplyBlock | deepsite-full/app/api/ask-ai/route.ts:217-231 | A blank search text puts the replacement and a newline in front and pushes lines 1 to the replacement's last. A search text that does not occur changes nothing and pushes nothing. Otherwise its first occurrence is replaced, the text around it is kept, and the pushed range runs from the line the replacement starts on to the line it ends on |
| PatchPipeline.ApplyBlocks | deepsite-full/app/api/ask-ai/route.ts:183-234 | The handler's loop computes exactly the whole pass, and every range it pushes is well formed |
| ModifyHandler.HandleModify | deepsite-full/app/api/ask-ai/route.ts:137-250 | Every failure has status 400 or 500 and a non-empty text |
| ModifyHandler.MissingFieldsRejected | deepsite-full/app/api/ask-ai/route.ts:137-142 | The answer is 400 with an `error` field exactly when the prompt or the document is missing or empty |
| ModifyHandler.BlankReplyRejected | deepsite-full/app/api/ask-ai/route.ts:173-181 | With a key, an absent or blank reply gives 400 "Model returned empty response"; any other reply is patched |
| ModifyHandler.MockReplyNotBlank | deepsite-full/app/api/ask-ai/route.ts:147-149 | MockReply: the offline reply is never blank |
| ModifyHandler.OfflineAlwaysUpdates | deepsite-full/app/api/ask-ai/route.ts:129-149 | Without a key a valid request always succeeds, with the patch pass over the offline reply |
| ModifyHandler.OfflineKeepsDocument | deepsite-full/app/api/ask-ai/route.ts:147-240 | Offline, with no complete block in the reply, the document comes back unchanged with no ranges |
| ModifyHandler.ThrownErrorReported | deepsite-full/app/api/ask-ai/route.ts:241-249 | A thrown error gives 500 with its message, or the generic message when it has none |
| ModifyHandler.UpdatedIsPatchPass | deepsite-full/app/api/ask-ai/route.ts:176-240 | ReplyText: a success means both fields were given and the reply text was obtained and was not blank; its ranges are the patch pass's, well formed and at most one per closing marker |
| ModifyHandler.Modify | deepsite-full/app/api/ask-ai/route.ts:117-251 | On a parsed JSON body: answers 400 with an `error` field exactly when the prompt or document is missing. Every failure the handler answers itself is 400 or 500 with a non-empty text. Offline it always updates. With a key, a thrown error is a 500 with its message (or the generic one), and a reply is rejected with 400 exactly when it is blank. An update is the patch pass over the reply, with well-formed ranges |
| HuggingFace.RemovePromptPrefix | deepsite-full/lib/huggingface.ts:28-33 | The result is never longer than the generated text |
| HuggingFace.RemovePromptPrefixKeepsOther | deepsite-full/lib/huggingface.ts:29-30 | Text that does not start with the prompt comes back unchanged |
| HuggingFace.RemovePromptPrefixCutsPrompt | deepsite-full/lib/huggingface.ts:32 | Text that starts with the prompt loses exactly the prompt: putting it back restores the text |
| HuggingFace.RemovePromptPrefixRoundTrip | deepsite-full/lib/huggingface.ts:28-33 | An echoed prompt followed by any text gives back exactly that text |
| HuggingFace.RemovePromptPrefixEmpty | deepsite-full/lib/huggingface.ts:28-33 | The empty prompt removes nothing |
| HuggingFace.Registry | deepsite-full/lib/huggingface.ts:106-114 | The registry holds exactly the three model names |
| HuggingFace.ResolveModelUrlDefault | deepsite-full/lib/huggingface.ts:116-119 | ResolveModelUrl: no model, an empty name, or a name outside the registry gives the default URL |
| HuggingFace.ResolveModelUrlEntry | deepsite-full/lib/huggingface.ts:118-121 | ResolveModelUrl: a registry name with a non-empty entry gives the entry, verbatim or on the inference endpoint |
| HuggingFace.InheritedNamesAreNotModels | deepsite-full/lib/huggingface.ts:106-114 | None of the names an object inherits is a model name |
| HuggingFace.ResolveModelUrlAsWrittenThrows | deepsite-full/lib/huggingface.ts:116-122 | The model name "toString" makes the code as written throw, where the corrected function gives the default URL |
| HuggingFace.ResolveModelUrlAgrees | deepsite-full/lib/huggingface.ts:116-122 | Outside the inherited names, the code as written and the corrected function give the same URL |
| HuggingFace.ResolveModelUrlAsWrittenFailsIff | deepsite-full/lib/huggingface.ts:116-122 | The code as written fails exactly on the inherited names |
| HuggingFace.ModifyPromptLayout | deepsite-full/lib/huggingface.ts:90-103 | BuildModifyPrompt: the modify prompt starts with the system prompt, holds the document verbatim at a fixed offset, and ends with the request and the closing instruction |
| HuggingFace.ModifyPromptWithSelection | deepsite-full/lib/huggingface.ts:99 | A non-empty selection follows the fenced document under its heading |
| HuggingFace.ModifyPromptWithoutSelection | deepsite-full/lib/huggingface.ts:99-101 | Without a selection the user request follows the fenced document directly |
| HuggingFace.ModifyPromptSelection | deepsite-full/lib/huggingface.ts:99-101 | The selection heading follows the document exactly when a non-empty selection is given |
| HuggingFace.ModifyPromptContext | deepsite-full/lib/huggingface.ts:92 | An absent previous request is replaced by the fixed note; a given one, even empty, is kept |
| Projects.NatToString | deepsite-full/app/api/projects/route.ts:50 | A number in a template literal is written as a non-empty run of digits |
| Projects.NatToStringRoundTrip | deepsite-full/app/api/projects/route.ts:50 | Reading back the numeral of a number gives the number |
| Projects.NatToStringInjective | deepsite-full/app/api/projects/route.ts:50 | Different suffixes give different numerals |
| Projects.Probe | deepsite-full/app/api/projects/route.ts:35-51 | The first attempt is the base; later ones are the base, a dash and more |
| Projects.ProbeInjective | deepsite-full/app/api/projects/route.ts:35-51 | Different attempts try different slugs |
| Projects.ProbesBelowHas | deepsite-full/app/api/projects/route.ts:35-51 | An attempt's slug is among the first `n` attempts exactly when it is one of them |
| Projects.ProbesBelowCard | deepsite-full/app/api/projects/route.ts:35-51 | The first `n` attempts try `n` different slugs |
| Projects.EnsureUniqueSlug | deepsite-full/app/api/projects/route.ts:34-53 | The slug returned is free; every earlier attempt was taken; it stops within one more attempt than there are taken slugs; a free base is kept |
| Projects.BaseSlug | deepsite-full/app/api/projects/route.ts:80-83 | The base slug is never empty |
| Projects.BaseSlugChoice | deepsite-full/app/api/projects/route.ts:80-83 | A requested slug that is not blank wins, trimmed; else the slugified title if non-empty; else `project-` followed by a run of digits whose value is the clock reading |
| Projects.SaveSlug | deepsite-full/app/api/projects/route.ts:85-96 | The existing project is reused exactly when the base slug is taken; a new project gets a free slug; either way the slug is the base slug |
| Projects.IsSemverSound | deepsite-full/app/api/projects/route.ts:11 | What the split-based check accepts, the pattern accepts |
| Projects.IsSemverComplete | deepsite-full/app/api/projects/route.ts:11 | What the pattern accepts, the split-based check accepts |
| Projects.IsSemverMatches | deepsite-full/app/api/projects/route.ts:11 | IsSemver: the split-based check accepts exactly what the pattern accepts |
| Projects.ValidateVersionAccepts | deepsite-full/app/api/projects/route.ts:19-25 | ValidateVersion: a version passes exactly when its trimmed text matches the pattern; the trimmed text is kept; a failure carries the semver message |
| Projects.SummaryOfValidated | deepsite-full/app/api/projects/route.ts:126-130 | Summary: a validated version gives "Version " and the trimmed version; without one, the last prompt, or "Updated " and the title |

## Left out

- The streaming `POST /api/ask-ai` (page generation) and its `generateMockHTML`: they are I/O, and the page text is not part of the patch engine.
- The chat-completion call and the messages it is sent (`route.ts` 151–171): a foreign call, modelled as a `Completion` parameter.
- `generateWithHuggingFace`, `buildGeneratePrompt` and `HF_TIMEOUT_MS` in `lib/huggingface.ts`: network I/O, a timer, and prompt text the modify flow does not use.
- The values of `SEARCH_START`, `DIVIDER`, `REPLACE_END` and `FOLLOW_UP_SYSTEM_PROMPT`: the prompts module is not part of this model, so they are parameters.
- JavaScript strings are UTF-16; the model uses whole characters, so surrogate pairs are not modelled.
- JavaScript `replace` expands `$&`, `$1` and similar patterns in the replacement; the model takes the replacement literally.
- ModifyHandler.Modify: the body is taken as a parsed JSON object. A body that is not JSON, or is the JSON `null`, makes `request.json()` or the destructuring at `route.ts` 118–127 throw. That happens before the `try` at line 144, so the handler gives no `{ ok: false, message }` answer for it, and the model cannot express that request.
- JSON fields of a type other than string (a number or an object as the prompt, say) are not modelled; a field is absent or a string.
- Sessions, Prisma, the transaction and the zod checks on `title`, `html` and `prompts` (`projects/route.ts` 13–18): only the version rule is modelled.
- `slugify` is an input, and `Date.now()` is a number parameter.
- Two concurrent saves can race between the lookup and the insert; the slug search is modelled as one atomic pass over a fixed set.
- Projects.EnsureUniqueSlug: the owner's slugs are a fixed set, so the `findUnique` round trips are not modelled one by one.
- Markers: only a non-empty closing marker is required; the source's concrete markers are not fixed.

## Findings

| source | as written | input that shows it | evidently intended | confidence | as-written member | corrected member |
|---|---|---|---|---|---|---|
| deepsite-full/lib/huggingface.ts:118-120 | `MODEL_REGISTRY[model]` on a plain object also finds members inherited from `Object.prototype`; such a member is truthy and has no `startsWith`, so the call throws a `TypeError` | `resolveModelUrl("toString")` (also `"constructor"`, `"__proto__"`, `"hasOwnProperty"`, …) | a name outside the registry falls back to the default URL | not executed | HuggingFace.ResolveModelUrlAsWrittenThrows | HuggingFace.ResolveModelUrlDefault |
