# Chat indexer core, modelled in Dafny

This project models the core of a small Django application. It takes a pasted chat transcript or a scraper's JSON export and splits it into question/answer sessions. It then gives each session a short topic label from a language model, and stores the sessions under the uploaded document while streaming progress.

The model covers these parts:

- **Parsing cascade** (`main/services/parser.py`), module `Parser`. The input is stripped and tried in this order:
  1. the JSON stage;
  2. after line endings are normalised, the AI stage;
  3. the heuristic fallback, which pairs a short paragraph with the long paragraphs after it.

  `validate_parsed_sessions` is the gate afterwards. The paragraph splitter `re.split(r'\n\s*\n+')` has its own module, `Paragraphs`. It models the regular expression exactly, with `\s` read as Python's `str.isspace`.
- **Labeller** (`main/services/labeler.py`), module `Labeler`. It covers:
  - the credential check;
  - the truncation of the prompt inputs;
  - the clean-up and cap of the reply;
  - the fixed fallback label when the provider fails;
  - the in-order batch.
- **Records** (`main/models.py`), module `Models`. It covers:
  - the status choices;
  - the display names of documents and sessions;
  - the question preview;
  - the session counts;
  - the ordering of a document's sessions.
- **Upload form** (`main/forms.py`), module `Forms`. Both fields use Django's default `CharField` stripping. The title is optional with at most 255 characters. The content is required, and `clean_content` enforces at least 10 characters. Both fields refuse NUL characters, as every `CharField` does.
- **Views** (`main/views.py`), module `Views`. `upload` creates a document. `generate_index` is a method over an in-memory sessions table, a map from document id to that document's sessions. It returns the final document, the new table, the stream of progress events and the statuses it saved in order.

Python string behaviour is modelled in module `Text`: `strip()` over the `str.isspace` characters, `strip(chars)`, the `s[:n] + '...'` idiom, `sep.join`, and `str(n)`. The optional and failure types are in module `Base`.

The external services are parameters:

- `decode: string -> Json` stands for `json.loads` on the stripped text. `Json` distinguishes a decode error, an array of items, an object with title, platform and items, and any other value.
- `ai: string -> seq<Item>` stands for the question/answer pairs that `_parse_with_ai` decodes from the Gemini reply. It returns `[]` when the key is missing or the call fails. The model assumes the client library imports; see "## Left out". The JSON stage's filter and numbering are then applied to these pairs, as in the code.
- `provider: (string, string) -> Reply` stands for the Anthropic call. It receives the truncated question and answer and returns either the reply text or a failure.
- `apiKey: Option<string>` stands for the `ANTHROPIC_API_KEY` environment variable.
- `GenerateIndex` takes the outcome of `parse_chat` as a `Result`. A `Failure` carries the text of the exception it raised. `GenerateIndexWithParser` plugs in `Parser.ParseChat`.

## Behaviours worth knowing

These follow from the code and are easy to miss when reading it.

- **JSON numbering.** A kept item is numbered by its 1-based position in the source array, so orders skip the positions of dropped items (`Parser.KeepItemsAllKept`, `Parser.KeepItems`).
- **Empty JSON array.** A decoded JSON array always ends the cascade, even when no item survives. The stage returns a `ParseResult`, which is always truthy (`Parser.JsonArrayEndsCascade`). An object with no kept item falls through to the text stages.
- **Fallback pairing.** A paragraph of fewer than 500 characters is paired with the next paragraph, if that one has more than 200 characters. Every directly following paragraph of more than 300 characters is added to the answer. Paragraphs that are all short give no session at all (`Parser.FallbackNeedsLongAnswer`).
- **Missing API key.** `get_client` raises before the guarded provider call, so a missing key is not turned into the fallback label. It propagates out of `generate_labels_batch` (`Labeler.GenerateLabel`, `Labeler.GenerateLabelsBatch`). The view catches it and stores `Session <order>`.
- **Reply clean-up.** Only whitespace and then `"` and `'` are stripped from the ends of the reply, one after the other. So a space inside quotes survives as a one-space label (`Labeler.QuotedSpaceSurvives`).
- **NUL characters.** Every Django `CharField` refuses a NUL character, so a title or content holding one is rejected by the form (`Forms.CleanTitleField`, `Forms.CleanContentField`).

## Model

| member | source | states |
|---|---|---|
| Text.TrimLeftFacts | main/services/parser.py:48 | stripping the front removes exactly the longest prefix of stripped characters and leaves a suffix of the input |
| Text.TrimRightFacts | main/services/parser.py:48 | stripping the back removes exactly the longest suffix of stripped characters and leaves a prefix of the input |
| Text.TrimFacts | main/services/parser.py:48 | `strip` gives a contiguous piece of the input that starts and ends in a kept character; it is empty iff every character was stripped; a string already stripped is returned unchanged |
| Text.TrimLeftSkips | main/forms.py:27 | leading padding made only of stripped characters does not affect the result of stripping the front |
| Text.TrimRightSkips | main/forms.py:27 | trailing padding made only of stripped characters does not affect the result of stripping the back |
| Text.TrimLeftKeepsTail | main/forms.py:27 | stripping the front of `s + t` stops inside `s` when `s` has a kept character |
| Text.TrimPadding | main/forms.py:27 | `strip` ignores surrounding padding made only of stripped characters |
| Text.Truncate | main/services/labeler.py:39-40 | short text is kept; longer text becomes its first n characters plus `...`, of length n + 3 |
| Text.TruncateBound | main/services/labeler.py:39-40 | the truncation idiom gives at most n + 3 characters |
| Text.JoinEnds | main/services/parser.py:238 | the joined text starts with the first part and ends with the last |
| Text.JoinStripped | main/services/parser.py:238 | joining stripped non-empty paragraphs gives stripped non-empty text |
| Text.NatToString | main/models.py:55 | `str(n)` is a non-empty string of digits without a leading zero |
| Text.NatToStringRoundTrip | main/models.py:55 | reading the digits of `str(n)` back gives n |
| Text.NatToStringInjective | main/models.py:26 | distinct numbers render as distinct strings |
| Paragraphs.RunEnd | main/services/parser.py:219 | the whitespace run starting at k ends at the first non-whitespace character or at the end |
| Paragraphs.AfterLastNewline | main/services/parser.py:219 | the result lies just after the last newline of the range, with no newline after it |
| Paragraphs.FirstSeparator | main/services/parser.py:219 | the leftmost match of `\n\s*\n+` at or after k, or None when no position matches |
| Paragraphs.SeparatorEnd | main/services/parser.py:219 | a separator match spans at least the two newlines it needs |
| Paragraphs.SplitBlankLines | main/services/parser.py:219 | `re.split` returns at least one piece |
| Paragraphs.BlankLineIsSeparator | main/services/parser.py:219 | two newlines with only whitespace between them start a match of `\n\s*\n+` |
| Paragraphs.PrefixNoBlankLine | main/services/parser.py:219 | the text before the first match holds no blank line |
| Paragraphs.SplitPiecesHaveNoBlankLine | main/services/parser.py:219 | no piece of the split holds two newlines separated only by whitespace, so every blank line is a cut |
| Paragraphs.StripAndDropEmpty | main/services/parser.py:220 | every surviving piece is non-empty and stripped, and there are no more of them than pieces |
| Paragraphs.SplitParagraphs | main/services/parser.py:219-220 | every paragraph the fallback sees is non-empty and stripped |
| Paragraphs.StripKeepsNoNewline | main/services/parser.py:48 | stripping text without a newline leaves text without a newline |
| Paragraphs.NoNewlineSplitsOnce | main/services/parser.py:219 | text without a newline is not split |
| Paragraphs.SingleLineIsOneParagraph | main/services/parser.py:219-220 | text without a line break is one paragraph, the stripped text, or none when blank |
| Parser.KeepItems | main/services/parser.py:122-126 | at most one session per item, numbered within the item positions; orders strictly increase |
| Parser.FromKeptItemShift | main/services/parser.py:122-126 | numbering from one position later, a session of the remaining items is a session of the whole list |
| Parser.KeepItemsSound | main/services/parser.py:122-126 | each kept session comes from an item with non-blank question and answer, stripped, numbered by its 1-based position |
| Parser.KeepItemsComplete | main/services/parser.py:122-126 | every item with non-blank question and answer appears, under its own position |
| Parser.KeepItemsAllKept | main/services/parser.py:122-126 | when every item is kept, the orders are exactly 1..N |
| Parser.KeepItemsNonEmpty | main/services/parser.py:137-144 | the filter yields something iff some item has non-blank question and answer |
| Parser.KeepItemsWellFormed | main/services/parser.py:122-126 | kept sessions have positive increasing orders and stripped non-empty question and answer |
| Parser.LooksLikeJson | main/services/parser.py:113-114 | the quick check: the text starts with `{` or `[` |
| Parser.ParseJsonFormat | main/services/parser.py:98-149 | a result only for text starting with `{` or `[`; an array always gives one, with title "" and platform "unknown"; an object gives one iff an item survives, carrying its title and platform; in both cases the sessions are the array's items filtered and numbered by position; anything else or a decode error gives none |
| Parser.ReplaceCrLf | main/services/parser.py:56 | replacing `\r\n` never lengthens the text and leaves text without `\r` unchanged |
| Parser.CrToLf | main/services/parser.py:56 | replacing each `\r` by `\n` keeps the length |
| Parser.NormalizeLineEndings | main/services/parser.py:56 | the normalised text contains no `\r` |
| Parser.CrToLfAppend | main/services/parser.py:56 | turning each `\r` into `\n` works piece by piece over concatenation |
| Parser.NormalizeMatchesSpec | main/services/parser.py:56 | the two replacements equal a one-pass reading: `\r\n` becomes `\n`, any other `\r` becomes `\n` |
| Parser.NormalizeNoCr | main/services/parser.py:56 | text without `\r` is unchanged |
| Parser.NormalizeIdempotent | main/services/parser.py:56 | normalising twice is normalising once |
| Parser.ParseWithAi | main/services/parser.py:199-208 | the AI stage's sessions pass the same filter as the JSON stage and are well formed |
| Parser.AnswerEnd | main/services/parser.py:231-233 | the inner loop's stop lies between its start and the end of the paragraph list |
| Parser.AnswerEndFacts | main/services/parser.py:230-233 | the inner loop stops at the first paragraph of at most 300 characters, or at the end, and passes only longer ones |
| Parser.SpansFrom | main/services/parser.py:222-245 | every pair uses at least two paragraphs, so there are at most half as many pairs as paragraphs |
| Parser.SpansFromValid | main/services/parser.py:222-233 | every pair of the scan starts at a short paragraph followed by a long one, at or after the scan's start, and its answer ends where the inner loop stops |
| Parser.SpansFromAfter | main/services/parser.py:222-245 | every pair of the scan starts at or after the scan's start |
| Parser.InOrderCons | main/services/parser.py:241 | a pair that ends before every later pair starts keeps the list in document order |
| Parser.SpansFromInOrder | main/services/parser.py:222-245 | the pairs are disjoint and in document order |
| Parser.SessionsMatchCons | main/services/parser.py:235-240 | a session built from a valid pair, put in front, keeps sessions and pairs matched one to one |
| Parser.FallbackFrom | main/services/parser.py:222-245 | the outer loop from paragraph i emits at most one session per two remaining paragraphs |
| Parser.FallbackFromSpans | main/services/parser.py:222-245 | the loop emits exactly one session per pair, built from that pair and numbered consecutively |
| Parser.FallbackSessions | main/services/parser.py:222-245 | one session per pair; orders are 1..n without gaps, and n is at most half the paragraph count |
| Parser.SpansFromCovers | main/services/parser.py:222-245 | every position at or after the scan's start where a pair could start lies inside one of the scan's pairs |
| Parser.GreedyFromHead | main/services/parser.py:228-233 | where a pair can start at the scan position, any pairing satisfying `GreedyFrom(ps, i, spans)` begins with exactly that pair |
| Parser.GreedyFromTailSpans | main/services/parser.py:241 | after the first pair of a pairing satisfying `GreedyFrom`, the other pairs are valid and start after it ends |
| Parser.GreedyFromTailCovers | main/services/parser.py:241 | a position after the first pair that is covered is covered by a later pair |
| Parser.GreedyFromTail | main/services/parser.py:241 | the rest of a pairing satisfying `GreedyFrom` from i satisfies it from the first pair's end |
| Parser.GreedyFromSkip | main/services/parser.py:242-243 | where no pair starts at i, a pairing satisfying `GreedyFrom` from i satisfies it from i + 1 |
| Parser.GreedyFromEnd | main/services/parser.py:224 | with fewer than two paragraphs left, a pairing satisfying `GreedyFrom` is empty |
| Parser.GreedyPairingFrom | main/services/parser.py:222-245 | any pairing satisfying `GreedyFrom(ps, i, spans)` is the scan's pairing from i |
| Parser.FallbackPairingCharacterized | main/services/parser.py:222-245 | the scan's pairs are the only valid, disjoint, ordered pairs that cover every position where a pair could start |
| Parser.FallbackSessionShape | main/services/parser.py:228-241 | a question is one paragraph under 500 characters; its answer is the next paragraph (over 200) plus every directly following paragraph over 300, joined by a blank line |
| Parser.FallbackSessionsDisjoint | main/services/parser.py:228-241 | paragraphs used by different sessions are disjoint and in document order |
| Parser.FallbackWellFormed | main/services/parser.py:215-245 | fallback sessions have positive increasing orders and stripped non-empty question and answer |
| Parser.SpanSessionParagraphs | main/services/parser.py:235-239 | a session built from stripped non-empty paragraphs has a stripped non-empty question and answer |
| Parser.FallbackNeedsLongAnswer | main/services/parser.py:228 | if no paragraph exceeds 200 characters, the fallback finds no session |
| Parser.CollectAnswer | main/services/parser.py:229-233 | the inner loop collects exactly the answer paragraphs and stops where `AnswerEnd` says |
| Parser.PairParagraphs | main/services/parser.py:222-245 | the loop computes exactly the fallback sessions, numbered from 1 |
| Parser.ParseFallback | main/services/parser.py:215-245 | `_parse_fallback` is the pairing of the paragraph list, and its sessions are well formed |
| Parser.TextStages | main/services/parser.py:56-64 | on the normalised text: exactly the AI stage's sessions when there are any, else exactly the fallback's sessions of its paragraphs; well formed either way |
| Parser.ParseChat | main/services/parser.py:33-64 | whatever the stage, the sessions have positive strictly increasing orders and stripped non-empty questions and answers |
| Parser.ParseChatWithMetadata | main/services/parser.py:67-95 | the metadata variant's sessions are well formed |
| Parser.MetadataAgreesWithParseChat | main/services/parser.py:67-95 | both entry points return the same sessions; title and platform differ from the defaults only for a JSON object |
| Parser.JsonArrayEndsCascade | main/services/parser.py:51-53 | a decoded array ends the cascade, even when empty; the AI stage is not consulted |
| Parser.NonJsonIgnoresDecoder | main/services/parser.py:113-114 | text not starting with `{` or `[` after stripping never reaches the decoder and gets default metadata |
| Parser.EmptyJsonObjectFallsThrough | main/services/parser.py:143-149 | an object without a usable item, like a decode error, falls through to the text stages |
| Parser.CountEmptyQuestions | main/services/parser.py:253 | the count is at most the length, with equality iff every question is empty |
| Parser.ValidateParsedSessions | main/services/parser.py:248-258 | valid iff some question is non-empty; the message is the "no sessions" text for an empty list, the "all questions empty" text otherwise, "" when valid |
| Parser.ParseChatValidIffNonEmpty | main/services/parser.py:248-258 | on the cascade's output the gate fails only for an empty list, with the "no sessions" message |
| Labeler.GetClient | main/services/labeler.py:11-19 | a client exists iff the key is set and non-empty; otherwise the missing-key error with its exact message |
| Labeler.CleanLabel | main/services/labeler.py:63-70 | the label is at most 100 characters and never starts with a quote; it is empty iff the stripped reply is only quotes; it is the fully stripped reply when that fits, and that reply's first 100 characters otherwise |
| Labeler.CleanLabelKeepsCleanText | main/services/labeler.py:63-70 | a short, stripped, unquoted reply is kept as is |
| Labeler.QuotesOnlyReplyGivesEmptyLabel | main/services/labeler.py:63-66 | any reply made of whitespace, then quote characters, then whitespace gives the empty label |
| Labeler.QuotedSpaceSurvives | main/services/labeler.py:63-66 | a space between two double quotes is not removed: the label is one space |
| Labeler.GenerateLabel | main/services/labeler.py:22-76 | the call raises exactly when the key is missing, with that error; otherwise the label is the cleaned reply when the provider answers and the fixed failure label when it fails, at most 100 characters either way |
| Labeler.PromptInputsBounded | main/services/labeler.py:36-40 | the provider sees at most 503 and 1003 characters, and the unchanged inputs when they fit |
| Labeler.LabelIgnoresTruncatedTail | main/services/labeler.py:36-40 | two long inputs that agree on their first 500 and 1000 characters send the provider identical arguments, and so get the same label |
| Labeler.GenerateLabelsBatch | main/services/labeler.py:79-93 | one label per session, in order, each the single-session label; the batch raises exactly when it is non-empty and the key is missing |
| Models.StatusIndex | main/models.py:7-13 | every status has a position in the five-entry choice list |
| Models.StatusValue | main/models.py:7-17 | every status is stored as one of the five choices, in at most 20 characters |
| Models.ParseStatus | main/models.py:7-13 | an accepted column value is the stored value of the status it reads as; anything else is rejected |
| Models.StatusRoundTrip | main/models.py:7-13 | status and stored value convert into each other without loss |
| Models.StatusValueInjective | main/models.py:7-13 | distinct statuses have distinct stored values |
| Models.NewDocument | main/models.py:15-18 | a new document starts as "uploaded" with an empty error message |
| Models.DocumentName | main/models.py:25-26 | the name is never empty; it is the title, or "Chat " followed by the digits of the id |
| Models.UntitledNamesDistinct | main/models.py:25-26 | untitled documents with different ids have different names |
| Models.SessionFallbackName | main/models.py:55 | "Session " followed by the digits of the order |
| Models.SessionFallbackNamesDistinct | main/models.py:55 | distinct orders give distinct fallback names |
| Models.SessionName | main/models.py:54-55 | the name is never empty; it is the label, or the fallback name for an empty label |
| Models.QuestionPreview | main/models.py:57-60 | the preview is at most 103 characters; a short question is shown whole; a long one as its first 100 characters plus `...` |
| Models.SessionCount | main/models.py:28-30 | the number of the document's sessions |
| Models.LabeledCount | main/models.py:32-34 | at most the session count; equal iff every label is non-empty; zero iff every label is empty |
| Models.LabeledCountAppend | main/models.py:32-34 | the labelled count of two lists joined is the sum of their counts |
| Forms.CleanContent | main/forms.py:25-29 | accepted iff at least 10 characters remain after stripping; accepted content is returned unchanged; otherwise the "too short" message |
| Forms.CleanTitleField | main/forms.py:8-15 | the stripped title is accepted iff it is at most 255 characters long and has no NUL, an empty title included; a rejection lists the length error (first) and the NUL error exactly when each applies |
| Forms.CleanContentField | main/forms.py:17-29 | the stripped content is accepted iff it is at least 10 characters long and has no NUL; empty content fails as required, content with a NUL with the NUL error, other short content with the "too short" message |
| Forms.ValidateUpload | main/forms.py:8-29 | the form is valid iff both fields are; a rejection gives each failing field exactly that field's errors and no error to a field that passed |
| Forms.ContentPaddingIrrelevant | main/forms.py:25-29 | whitespace added around the content never changes the outcome |
| Forms.CleanContentFieldIdempotent | main/forms.py:25-29 | resubmitting accepted content gives the same result |
| Views.Upload | main/views.py:22-33 | a document is created iff the form is valid (length limits, no NUL in either field); it starts as "uploaded" with the cleaned title and content |
| Views.KeyedLabelFitsColumn | main/models.py:48 | with a key set, every stored label fits the 255-character label column |
| Views.LabelFor | main/views.py:107-113 | a missing key gives "Session <order>"; with a key the label is the labeller's result, at most 100 characters; an empty label only comes from a reply of quotes and whitespace |
| Views.IndexedSessions | main/views.py:87-113 | one stored session per parsed session |
| Views.CreateRows | main/views.py:87-97 | one unlabelled row per parsed entry, with the same order, question and answer, in parse order |
| Views.LabelRows | main/views.py:103-113 | every row keeps its fields and gets the label the labeller gives it; progress reports 1..n of n |
| Views.LabelledRowsIndexed | main/views.py:87-113 | the created rows, each labelled by the view's rule, are the indexed sessions |
| Views.LabelCreatedRows | main/views.py:103-113 | labelling the created rows gives the indexed sessions and progress 1..n of n |
| Views.GenerateIndex | main/views.py:61-126 | saves "parsing" first; a parse exception or a failed validation ends in "error" with that message, leaves the sessions alone and emits an error event; otherwise the document's sessions are replaced by the labelled parsed ones, the saved statuses are parsing, labeling, completed, and the events are exactly the progress trace |
| Views.GenerateIndexWithParser | main/views.py:61-126 | with the real parser the document completes iff a session was found; otherwise it is "error" with the "no sessions" message; other documents' sessions are untouched and the stored ones are listed in order |
| Views.IndexedSessionsListedInOrder | main/views.py:87-97 | stored sessions keep the parsed order, question and answer, so they are listed by ascending, unique order |
| Views.MissingKeyNamesEverySession | main/views.py:107-113 | without a key every session is labelled "Session <order>", so all count as labelled |
| Views.ProviderDownLabelsFailed | main/views.py:107-113 | when every provider call fails every session gets the fixed failure label |
| Views.LabelingProgressCountsUp | main/views.py:104-105 | labelling progress runs 1..n with total n and ends at n |

## Left out

- Labeler.LabelIgnoresTruncatedTail: the provider is modelled as a function, so the same truncated question and answer always give the same reply. The real call is not deterministic, so what the lemma really guarantees is that the provider receives identical arguments; it does not promise identical labels from two real calls.
- The network calls (the Gemini call in `_parse_with_ai` and the Anthropic call in `generate_label`) are the `ai` and `provider` parameters. Prompt wording, model names and token limits are not modelled.
- `_parse_with_ai` internals live inside the `ai` parameter: the key lookup, the 100000-character truncation of its input, the removal of code fences from the reply, decoding, and the catch-all that returns `[]`.
- `json.loads` is the `decode` parameter. JSON items that are not objects, and fields that are not strings, make the code raise `AttributeError` uncaught. The `Item` type rules them out.
- Parser.ParseChat: assumes that `_parse_with_ai` can import its client library. The import is its first statement, before the key check and outside its `try`, so a missing library makes every input that reaches the AI stage raise `ModuleNotFoundError`, even without a key. The `ai` parameter cannot raise. `Views.GenerateIndex` still covers that case through its `Failure` outcome, but `Views.GenerateIndexWithParser` does not.
- Parser.ParseChatWithMetadata: the same assumption; a missing client library makes it raise for every input that reaches the AI stage.
- Views.GenerateIndexWithParser: assumes the same import succeeds; with the library missing, a document whose text reaches the AI stage would end in "error" with the import error's message.
- Parser.ParseChat: does not model the uncaught exceptions that non-object JSON items raise, because `Item` cannot express them. Nor does it model a `sessions` value that is not a list (iterating it raises, or iterates a string's characters), or a `title` or `platform` that is not a string, which the code passes on unchanged; `Json` gives these fields fixed types. `Views.GenerateIndex` still models any exception from parsing, through its `Failure` case.
- Views.GenerateIndex: assumes the client reads the event stream to the end. A client that disconnects raises `GeneratorExit` at a `yield`, which `except Exception` does not catch, so the document would stay in "parsing" or "labeling" with some sessions unlabelled; this is not modelled.
- Views.GenerateIndex: does not model exceptions raised by database writes; only an exception from `parse_chat` reaches the error path. Only the final sessions table is returned, not the intermediate states the loops write.
- The ORM, the timestamps (`uploaded_at`, `completed_at`, newest-first listing), the server-sent-event framing and JSON encoding, and the response headers are not modelled; they are persistence and transport.
- The unique (document, order) constraint is not enforced by the sessions table. `Views.IndexedSessionsListedInOrder` shows that the parser's orders never violate it.
- The 255-character width of the label column is not enforced by the sessions table. `Views.KeyedLabelFitsColumn` shows that labels from the labeller fit it.
- Forms.CleanTitleField: Django's error texts for a required field, an over-long field and a NUL character are constructors of `FieldError`, not strings.
- The read-only views `home` and `document_detail`, `main/admin.py`, `main/urls.py`, `cleanup_old_docs.py` and `test_gemini_model.py` are not part of this model. They are rendering, configuration and maintenance scripts.
- The `print` of a failed AI parse is not modelled.
