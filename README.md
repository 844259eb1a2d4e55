# 8-K event classifier core, modelled in Dafny

This project models the core of the SEC 8-K event classifier. The classifier turns the cleaned text of a filing into a list of
labelled events: each item pairs an `"Event Type"` from a configurable taxonomy with a `"Relevant"` flag. The model covers:

- the **taxonomy** (`config/config.py`): an `EventConfig` object holding an insertion-ordered dictionary from label
  to relevance flag. It is created with ten default labels when no file exists, and every change is written back to the
  file at once. The CLI's `relevant.lower() == 'true'` parse is modelled too.
- the **prompt** (`classify/classify.py`, `classify/build_prompt.py`): the fixed map of two template names, and the
  variant chosen by the `use_cot` flag. The template is filled in two ways: `str.format` with `text` and the JSON
  label list (classify_event), or two chained `str.replace` calls with a quoted, comma-joined label list (build_prompt).
- the **model call** (`classify/llm_client.py`): the `OLLAMA_MODEL` check, failure on a non-zero exit status, and the
  stripped stdout.
- the **reply parse** (`classify/classify.py`, `classify/validator.py`): the whole reply is parsed first. Only when that
  fails is the bracketed block that `re.search(r'(\[.*?\]|\{.*?\})', …, re.DOTALL)` finds parsed instead. The result is
  `json.dumps` of whatever parsed.
- the **two validators** (`classify/validator.py`): the flat answer list and the `{"Events", "Reasoning"}` object, with
  their shared item rule.
- the **handler helpers** (`api/routes.py`): `clean_filing_text`, the URL file name, the stored template label, and
  which prompt and which validator a template name selects.

Module layout, one module per source file:

| module | file | source |
|---|---|---|
| `Wrappers`, `Errors` | wrappers.dfy | Option/Result; one error constructor per raise site |
| `Json` | json.dfy | decoded JSON values and `json.dumps` |
| `PyStr` | pystr.dfy | `str.isspace`, `strip`, `replace`, `split`, `join` |
| `Validator` | validator.dfy | classify/validator.py |
| `LlmClient` | llm_client.dfy | classify/llm_client.py |
| `Classify` | classify.dfy | classify/classify.py |
| `BuildPrompt` | build_prompt.dfy | classify/build_prompt.py |
| `Config` | config.dfy | config/config.py |
| `Routes` | routes.dfy | api/routes.py (helpers) |

External collaborators are passed in as values:
- `json.loads` is a function `parse: string -> Option<Json>`, where `None` stands for `JSONDecodeError`. The lemmas that
  need a real decoder assume one of two predicates about it:
  - `Json.DecodesEncoding`: it reads back what `json.dumps` writes;
  - `Json.RejectsCutObjects`: it rejects a proper prefix of an object's text.
- The prompts directory is one function `files: string -> Option<string>` from file name to text (`None` when the
  file is missing). Both load_prompt and build_prompt resolve their paths to the same `prompts` directory, and both
  modules read this one function (`BuildPrompt.SameTemplateDirectory`). How `str.format` splits a template's text
  into literals and fields is the parameter `Classify.Env.pieces`.
- The environment variable and the `ollama run` subprocess are a `LlmClient.Backend` value.
- The configuration file is read as an `Option<Table>`. Each write to it is recorded in the ghost history
  `EventConfig.writes`.

`json.dumps` itself is concrete (`Json.Serialize`): default separators `", "` and `": "`, `ensure_ascii` escapes with
surrogate pairs, insertion-ordered keys. Because of that, the positions of brackets in the classifier's output can be
reasoned about.

Behaviour of the code worth knowing before reading the contracts:
- The default table (config/config.py:19-30) marks **seven** labels relevant and three not.
- `classify_event` returns the **JSON text** produced by `json.dumps`, not a decoded structure. The handlers then
  validate that text and parse it again for storage.
- The handlers select the CoT prompt when the name is `"cot.tpl"`, but select the zero-shot validator only when the name
  is `"zero_shot.tpl"`. Any other name therefore gets the zero-shot prompt checked by the CoT validator
  (`Routes.PromptAndValidatorPairing`, `Routes.UnknownTemplateRejectsList`).
- `build_prompt` fills a `{events}` that arrives inside the filing text, and the filing text can be consumed by a
  placeholder formed across the seam (`BuildPrompt.FilingTextIsRewritten`, `BuildPrompt.TextCanBeSwallowed`). So
  "the filing text appears in the prompt" holds only under the condition of `BuildPrompt.TextKeptVerbatim`.

## Model

| member | source | states |
|---|---|---|
| Validator.FirstFrom | classify/validator.py:8 | the lazy `.*?` stops at the first position at or after `from` holding the closer, or there is none |
| Validator.Search | classify/validator.py:8 | `re.search` returns the leftmost opener that has a later closer of its family, and the first such closer; `None` exactly when no position matches |
| Validator.ExtractJsonBlock | classify/validator.py:6-11 | fails, with the no-JSON error, exactly when no opener has a later same-family closer; otherwise the block starts with an opener, ends with its closer and holds no other closer of that family (no depth counting) |
| Validator.SpanShape | classify/validator.py:10 | `match.group(1)` is the span from the opener to the closer, with the shape above |
| Validator.ExtractedSpan | classify/validator.py:8-10 | a returned block is `text[i..j+1]` for the leftmost matching opener `i` and its first closer `j` |
| Validator.ExtractionDeterminedBy | classify/validator.py:8-10 | conversely, any span meeting that description is the one returned |
| Validator.BlockEndsByCloser | classify/validator.py:8-10 | with no opener before `i`, the block starts at `i` and ends no later than any closer of its family |
| Validator.ExtractIdempotent | classify/validator.py:6-11 | extracting from an extracted block returns the block itself |
| Validator.NoBracketsNoBlock | classify/validator.py:11 | text without `[` and `{` raises the no-JSON error |
| Validator.NestedInputIsTruncated | classify/validator.py:8 | `[{"a": [1]}]` is cut to `[{"a": [1]` at the first inner closer |
| Validator.UnclosedOpenerIsSkipped | classify/validator.py:8 | an example: in `[ {x}` the `[` has no closing `]` and is skipped, so the block is `{x}` |
| Validator.AllItemsValid | classify/validator.py:33-49 | the per-item loop gives true exactly when every item satisfies the item rule |
| Validator.ValidateZeroShot | classify/validator.py:13-52 | true iff the text parses, to a list, every element of which is an object with an allowed `"Event Type"` string and a boolean `"Relevant"`; undecodable text gives false |
| Validator.ValidateCot | classify/validator.py:54-104 | true iff the text parses to an object holding `"Events"` and `"Reasoning"`, `"Events"` is a list, and every element passes the item rule |
| Validator.ValidatorsExclusive | classify/validator.py:29-70 | no text passes both validators |
| Validator.EmptyListIsValid | classify/validator.py:29-49 | the empty list passes the zero-shot validator whatever the taxonomy |
| Validator.ItemRuleExamples | tests/test_validator.py:4-58 | extra keys pass; an unknown label, a missing key, or the string "true" as the flag fail |
| LlmClient.RunLlama3 | classify/llm_client.py:4-20 | error exactly when `OLLAMA_MODEL` is unset or empty; with a model set, a non-zero exit is the error carrying the stripped stderr and the model name, and a zero exit is the stripped stdout, with no whitespace at either end |
| LlmClient.ReplyIsTrimmedStdout | classify/llm_client.py:20 | the reply is stdout with only whitespace margins removed: stdout == lead + reply + trail |
| Classify.LoadPrompt | classify/classify.py:8-33 | unknown-template error iff the name is neither `zero_shot.tpl` nor `cot.tpl`; for a known name, the file's contents when it exists and the missing-file error when it does not |
| Classify.PromptName | classify/classify.py:48 | the CoT template exactly when `use_cot`; always a known template |
| Classify.Format | classify/classify.py:53 | `str.format(text=…, events=…)` fails, at the leftmost such field, exactly when the template names any other field |
| Classify.FormatConcat | classify/classify.py:53 | formatting distributes over concatenating templates, and the first error wins |
| Classify.FormatSingle | classify/classify.py:53 | a literal is copied; a known field becomes its argument |
| Classify.FormatEmbedsText | classify/classify.py:53 | a template with a `{text}` field that formats embeds the filing text verbatim |
| Classify.LabelsJsonRoundTrip | classify/classify.py:53 | `json.dumps(events)` reads back as the labels, in order |
| Classify.ParseReply | classify/classify.py:61-73 | a reply that parses is returned re-serialized; otherwise the extracted block is parsed; no block and an undecodable block are the two errors; success is always `json.dumps` output |
| Classify.ClassifyPrompt | classify/classify.py:47-53 | when the selected template file exists, the result is that template formatted with the text and the JSON label list; when it does not, the missing-file error for that name; never an unknown-template error |
| Classify.ClassifyEvent | classify/classify.py:35-73 | a prompt error is the result; otherwise the model's failure is, and a model answer gives the parse cascade's result on it; every result is `json.dumps` text and never the unknown-name error |
| Classify.ClassifyFromProcess | classify/classify.py:47-73 | when the template file is there, formats cleanly, a model is configured and its process exits with status 0, the result is the parse cascade on that process's stripped standard output |
| Classify.DirectReplyAccepted | classify/classify.py:64-65 | when the prompt builds and the model's whole answer is JSON, that value is returned re-serialized |
| Classify.ResultReparses | classify/classify.py:62-71 | the result parses back to the accepted value, and running the cascade on it again changes nothing |
| Classify.ProseWrappedListAccepted | classify/classify.py:66-71 | a list of flat items wrapped in bracket-free prose is recovered by the block stage |
| Classify.AnswerInSentenceAccepted | classify/classify.py:66-71 | "Here is the answer: <list> Thank you." yields the list |
| Classify.RefusalRejected | classify/classify.py:66-73 | any reply that is not JSON and holds no `[` or `{` is reported as having no JSON block |
| Classify.ProseWrappedReasoningRejected | classify/classify.py:66-73 | a reasoning object wrapped in prose is cut at the first `}` and rejected as undecodable |
| Classify.CutAtInnerBrace | classify/validator.py:8 | for an object text with an inner `}` after opener-free prose, the block is a proper prefix of the object |
| BuildPrompt.QuoteLabel | classify/build_prompt.py:13 | `f'"{e}"'` is the label between double quotes, nothing escaped |
| BuildPrompt.QuotedLabels | classify/build_prompt.py:13 | one quoted label per event, in order |
| BuildPrompt.BuildPrompt | classify/build_prompt.py:5-15 | error exactly when the template file is missing; an existing file gives its contents with `{text}` then `{events}` replaced |
| BuildPrompt.SameTemplateDirectory | classify/build_prompt.py:9-11 | build_prompt and load_prompt read one prompts directory: for either variant one reports the file missing exactly when the other does, and otherwise both start from the same file text |
| BuildPrompt.EventsListEmptyIff | classify/build_prompt.py:13 | the joined label list is empty exactly when there are no labels |
| BuildPrompt.EventsListAppend | classify/build_prompt.py:13 | one more label appends `, ` and its quoted form |
| BuildPrompt.EventsListHasLabel | classify/build_prompt.py:13 | every quoted label occurs in the list |
| BuildPrompt.OtherSlotSurvives | classify/build_prompt.py:14 | replacing one placeholder keeps every occurrence of the other |
| BuildPrompt.QuotedLabelsInPrompt | classify/build_prompt.py:13-14 | a template with `{events}` yields a prompt containing every quoted label |
| BuildPrompt.NoSlotsUnchanged | classify/build_prompt.py:14 | a template without either placeholder comes back unchanged |
| BuildPrompt.EventsSlotInTextIsFilled | classify/build_prompt.py:14 | an `{events}` inside the filing text is replaced by the label list too |
| BuildPrompt.InsertedTextUntouched | classify/build_prompt.py:14 | inserted text without `{` and not starting with a character of `events}` passes the second replace unchanged |
| BuildPrompt.TextKeptVerbatim | tests/test_build_prompt.py:36-54 | under that condition the filing text occurs in the prompt |
| BuildPrompt.TextCanBeSwallowed | classify/build_prompt.py:14 | template `{even{text}` with text `ts}` gives the empty prompt, which does not contain the text |
| BuildPrompt.FilingTextIsRewritten | classify/build_prompt.py:14 | text `a {events}` with label X becomes `a "X"`, which no longer contains the text |
| Config.DefaultTableFacts | config/config.py:17-32 | the default table is well formed: ten distinct labels, the first seven relevant and the last three not |
| Config.Lookup | config/config.py:66 | a label is relevant iff it is present with a true flag; an absent label gives false |
| Config.Without | config/config.py:51 | deleting a key keeps exactly the other keys |
| Config.Added | config/config.py:45 | a new label goes last, an existing one keeps its place; only that label's flag changes |
| Config.Removed | config/config.py:50-51 | a present label disappears from the order and the map; an absent one changes nothing; other flags are kept |
| Config.Updated | config/config.py:56-57 | the order and the key set are kept; a present label takes the new flag; an absent label changes nothing |
| Config.WithoutAt | config/config.py:51 | removing the label at position k cuts out exactly that position |
| Config.AddedWellFormed | config/config.py:45 | adding keeps the dictionary well formed |
| Config.RemovedWellFormed | config/config.py:51 | removing keeps the dictionary well formed |
| Config.UpdatedWellFormed | config/config.py:57 | updating keeps the dictionary well formed |
| Config.RemovedKeepsOrder | config/config.py:48-62 | after a removal the listed labels are the old ones without that position |
| Config.RemoveUndoesAdd | config/config.py:43-52 | removing a label just added restores the previous table |
| Config.AddIsUpdateWhenPresent | config/config.py:43-58 | on a present label add and update agree, and re-adding its own flag changes nothing |
| Config.Lower | config/config.py:90 | `lower()` maps each character, preserving length |
| Config.ParseRelevantFlag | config/config.py:90 | true exactly for "true" in any mix of upper- and lower-case letters |
| Config.EventConfig.constructor | config/config.py:10-35 | a missing file yields the default table, written once; a stored table is taken as is, with no write |
| Config.EventConfig.AddEventType | config/config.py:43-46 | the new state is the added table and is written to the file |
| Config.EventConfig.RemoveEventType | config/config.py:48-52 | the new state is the removed table; a write happens only when the label was present |
| Config.EventConfig.UpdateRelevance | config/config.py:54-58 | the new state is the updated table; a write happens only when the label was present |
| Config.EventConfig.GetEventTypes | config/config.py:60-62 | the labels in insertion order, each once, exactly the configured keys |
| Config.EventConfig.IsRelevant | config/config.py:64-66 | the stored flag of a known label, false for any other |
| PyStr.LStrip | api/routes.py:27 | drops exactly the leading whitespace |
| PyStr.RStrip | api/routes.py:27 | drops exactly the trailing whitespace |
| PyStr.StripShape | api/routes.py:27 | `strip()` leaves the middle of lead + middle + trail with whitespace-only margins |
| PyStr.StripIdempotent | api/routes.py:27 | stripping twice is stripping once |
| PyStr.ReplaceAbsent | classify/build_prompt.py:14 | replacing an absent pattern changes nothing |
| PyStr.ReplaceIntroduces | classify/build_prompt.py:14 | replacing a present pattern puts the replacement in the result |
| PyStr.ReplaceConcat | classify/build_prompt.py:14 | replacement distributes over a seam that no occurrence straddles |
| PyStr.ReplaceIsJoinOfSplit | classify/build_prompt.py:14 | `s.replace(p, r)` equals `r.join(s.split(p))` |
| PyStr.SplitJoinRoundTrip | api/routes.py:53 | `p.join(s.split(p))` gives back s |
| PyStr.ReplaceSelf | classify/build_prompt.py:14 | replacing a pattern by itself changes nothing |
| PyStr.JoinContainsPart | classify/build_prompt.py:13 | every part occurs in the joined string |
| PyStr.LastPieceOnChar | api/routes.py:53 | the last piece of a split on one character is the longest suffix free of it |
| Json.Get | classify/validator.py:37-46 | `key in d` holds iff some member has that key, and the value returned is that member's |
| Json.FlatHasNoCloseBracket | classify/classify.py:65 | the `json.dumps` text of a value without arrays or `]` in its strings has no `]` |
| Json.FlatListShape | classify/classify.py:65 | a list of flat items serializes as `[` + a body without `]` + `]` |
| Json.InnerCloseBrace | classify/classify.py:65 | an object with a member list starting with an object has a `}` strictly inside its text |
| Json.EscapeKeepsBracketOut | classify/classify.py:65 | `ensure_ascii` escaping never introduces `]` |
| Routes.CleanIsUnwordsOfWords | api/routes.py:26-27 | `clean_filing_text` equals the whitespace-separated words joined by single spaces |
| Routes.WordsOfUnwords | api/routes.py:27 | splitting words joined by single spaces gives the words back |
| Routes.CleanIdempotent | api/routes.py:26-27 | cleaning twice is cleaning once |
| Routes.CleanSpacing | api/routes.py:26-27 | the cleaned text has no whitespace at either end, and each whitespace inside is one space between non-spaces |
| Routes.NonSpaceOfCollapse | api/routes.py:27 | collapsing runs of whitespace keeps every other character, in order |
| Routes.CleanKeepsNonSpace | api/routes.py:26-27 | cleaning keeps every non-whitespace character, in order, and adds none |
| Routes.CleanEmptyIff | api/routes.py:26-27 | the cleaned text is empty exactly when the input is all whitespace |
| Routes.FileName | api/routes.py:53 | the part after the last `/`, or the whole URL when it has none |
| Routes.TemplateLabel | api/routes.py:83 | "Chain-of-Thought" exactly for `cot.tpl`, "Zero-Shot" for every other name |
| Routes.UsesCotPrompt | api/routes.py:60 | the flag is set exactly for `cot.tpl`, so the prompt used is the requested one exactly when the name is a known template |
| Routes.ChosenValidator | api/routes.py:61-66 | the zero-shot validator exactly for `zero_shot.tpl`, the CoT validator otherwise |
| Routes.PromptAndValidatorPairing | api/routes.py:60-66 | the two known names get a matching prompt and validator; any other name gets the zero-shot prompt with the CoT validator |
| Routes.ClassifyAndValidate | api/routes.py:60-66 | the handler's result is classify_event's output on the cleaned text, paired with the verdict of the validator the template selects; classify_event's errors propagate (the batch handler repeats these steps at lines 101-107) |
| Routes.ZeroShotListValidated | api/routes.py:60-63 | with `zero_shot.tpl`, when the prompt builds and the model answers with a list of valid items, that list is returned and reported valid |
| Routes.UnknownTemplateRejectsList | api/routes.py:60-66 | under an unrecognised template name, when the zero-shot prompt builds and the model answers with a list, that list is returned and reported invalid |
| Validator.MatchAt | classify/validator.py:8 | definition, no contract of its own: an opener at i with a closer of its own family somewhere after it; Validator.Search and Validator.ExtractJsonBlock are stated in terms of it |
| Validator.ValidItem | classify/validator.py:33-47 | definition, no contract of its own: the item rule (an object, both keys present, an allowed string label, a boolean flag), repeated at lines 85-99; Validator.ItemRuleExamples exercises it |
| Classify.LabelsJson | classify/classify.py:53 | definition, no contract of its own: `json.dumps(events)` as the serialization of a list of strings; Classify.LabelsJsonRoundTrip states that it reads back as the labels |
| BuildPrompt.EventsList | classify/build_prompt.py:13 | definition, no contract of its own: `', '.join` of the quoted labels; characterised by BuildPrompt.EventsListEmptyIff, EventsListAppend and EventsListHasLabel |
| BuildPrompt.Fill | classify/build_prompt.py:14 | definition, no contract of its own: the two chained replacements; characterised by BuildPrompt.QuotedLabelsInPrompt, NoSlotsUnchanged, TextKeptVerbatim and TextCanBeSwallowed |
| Config.DefaultTable | config/config.py:19-30 | definition, no contract of its own: the ten default labels in file order with their flags; Config.DefaultTableFacts states its shape |
| Json.Serialize | classify/classify.py:65 | definition, no contract of its own: `json.dumps` with default separators and `ensure_ascii`; Json.FlatListShape, Json.InnerCloseBrace and Json.FlatHasNoCloseBracket state the bracket facts used about it |
| PyStr.Strip | api/routes.py:27 | definition, no contract of its own: `rstrip` after `lstrip`; PyStr.StripShape states that it keeps exactly the middle between whitespace margins |
| PyStr.ReplaceAll | classify/build_prompt.py:14 | definition, no contract of its own: left-to-right non-overlapping replacement; PyStr.ReplaceIsJoinOfSplit, ReplaceAbsent and ReplaceConcat characterise it |
| PyStr.Split | api/routes.py:53 | `s.split(p)` for a non-empty separator always has at least one piece; PyStr.SplitJoinRoundTrip states that joining the pieces gives the string back |
| PyStr.Join | classify/build_prompt.py:13 | definition, no contract of its own: `sep.join(parts)`; PyStr.JoinContainsPart and JoinLast characterise it |
| Routes.RunValidator | api/routes.py:61-66 | definition, no contract of its own: running the chosen validator; Routes.ClassifyAndValidate is stated in terms of it |
| Routes.CollapseSpace | api/routes.py:27 | definition, no contract of its own: `re.sub(r'\s+', ' ', …)`; Routes.CollapseShape and Routes.NonSpaceOfCollapse state what it does |
| Routes.CollapseShape | api/routes.py:27 | `re.sub` alone gives the words joined by single spaces, with one space for each whitespace margin of the text |
| Routes.CleanFilingText | api/routes.py:26-27 | definition, no contract of its own: strip after collapsing; Routes.CleanIsUnwordsOfWords, CleanIdempotent, CleanSpacing, CleanKeepsNonSpace and CleanEmptyIff state what it does |

## Left out

- File reading and writing (`open`, `os.path.exists`, `os.makedirs`, `json.dump` to the file): the files are parameters,
  and writes are a ghost history of tables.
- `json.loads` is not implemented. It is the `parse` parameter, and two lemma families rest on the stated hypotheses
  `DecodesEncoding` and `RejectsCutObjects`.
- JSON numbers are modelled as integers only: floats and their `json.dumps` text are not captured.
- Json.Get: on an object with duplicate keys it takes the first member, while Python's dict keeps the last value.
- Json.DecodesEncoding: asks the decoder to keep duplicate members, which Python's `json.loads` does not.
- `str.format` is modelled on templates already split into literals and fields by the parameter `Classify.Env.pieces`:
  the format-string grammar (`{{`, conversions, format specs, positional fields) is not.
- Config.Lower: ASCII-only; Unicode case mappings of `str.lower` are not modelled (no other character lower-cases to a letter of "true", so Config.ParseRelevantFlag is unaffected).
- Config.EventConfig.constructor: a stored configuration file is assumed to be a well-formed table with a boolean
  flag per label; malformed files (`JSONDecodeError`, entries without `"relevant"`) are not modelled.
- LlmClient.RunLlama3: the ignored `model` argument is not a parameter; the subprocess itself (hangs, missing binary)
  is a function from model and prompt to its completion.
- BuildPrompt.TextKeptVerbatim: proves the filing text survives only when it holds no `{` and does not start with a
  character of `events}`, because without that the text is not always kept (`BuildPrompt.TextCanBeSwallowed`).
- `extract_company_name`, the handlers' download and HTML extraction, `uuid`, the database inserts, the re-parse of the
  result for storage (api/routes.py:67-70), the `print` calls, the result listing routes and the HTTP errors: I/O and
  storage outside the classifier core.
- The `argparse` command lines of classify.py and config.py, apart from the `lower() == 'true'` flag parse.
- Classify.ClassifyEvent: the `use_cot=False` default argument of classify_event (classify/classify.py:35) is not
  modelled; every caller passes `useCot` explicitly.
- Ingestion, the orchestrating scripts and the user interface are not part of this model.
