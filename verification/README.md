# Documentation analyzer and readability patcher — a Dafny model

This project models the core of a documentation-analysis tool. The tool scores a help-centre
article for readability, completeness and style. A companion script then applies the
readability suggestions back to the article text. The model covers five parts:

- **The patch engine** (`agent-2.py`). It applies "original → suggestion" edit directives to a
  document in three passes:
  1. exact replace-all;
  2. a fuzzy sentence match followed by a one-sentence rewrite from the generation service;
  3. one whole-document rewrite for whatever is still unapplied.

  The engine keeps an `applied` flag per directive. Around it sit:
  - the sentence splitter;
  - the Markdown-fence stripper;
  - the builders of the two prompts;
  - the driver `main`, which normalises the report's suggestion list into directives and
    falls back to the scraped text when the engine raises.
- **The generation client** (`utils/gemini.py`). It configures once per process. It then tries
  the primary model and falls back to the secondary model only after a rate-limit error.
- **The readability, completeness and style analyzers.** Each turns a service reply into an
  `{assessment, suggestions}` record. A reply can be:
  - a JSON object;
  - other JSON;
  - text split at a marker;
  - an empty or blocked response;
  - no response at all.
- **The analysis runner** (`analyzer/analysis_runner.py`). It runs the four analyzers in a fixed
  order and isolates each one's exception into the report's error list.

External pieces are parameters:
- The generation service is a function from a request to the reply observed. The reply is
  `Raised(message)`, or `Returned` with no response or with a response. A response has parts,
  a `.text` that may raise, and a block reason.
- difflib's `get_close_matches(orig, sentences, n=1, cutoff=0.75)` is a matcher oracle.
  `Patch.PicksCandidate` states that it picks only candidates.
- `json.loads` is a decoder to `Option<Json>`. `None` stands for `JSONDecodeError`.
- The readability score is its rendered value or the message it raised.
- Each analyzer's service is a function of the document, because the prompt templates are
  opaque.

A raised Python exception is an `Err` carrying its message.

Modules, in dependency order:
- `Wrappers` (`Option`, `Result`).
- `Choice`: a list comprehension with a filter, as the picks at an increasing list of positions.
- `Text`: Python's `strip`, `in`, `replace`, `split(sep, 1)`, `splitlines`, `join`, `str(int)`,
  and the fence stripper.
- `Json`: decoded values, truthiness, `dict.get`, `str()`.
- `Gemini`.
- `Sentences`.
- `Patch`.
- `Revise`: the driver `main`.
- `Analysis`: what the three analyzers share.
- `Readability`, `Completeness`, `Style`.
- `Runner`.

## Model

| member | source | states |
|---|---|---|
| Gemini.ConfigureIfNeeded | utils/gemini.py:15-33 | After any call the process counts as configured. The returned flag is the stored success flag. A configured state is left unchanged whatever key is passed. A first call succeeds iff the key is present, non-empty, not "YOUR_API_KEY_PLACEHOLDER", and accepted by the SDK. |
| Gemini.ConfiguredStateIsFinal | utils/gemini.py:17-33 | Once configured, every later call returns the cached flag, whatever keys it is given. |
| Gemini.FirstCallDecides | utils/gemini.py:18-32 | The first configuration call succeeds exactly for a usable key that the SDK accepts. |
| Gemini.FirstConfigurationDecides | utils/gemini.py:15-33 | Over any sequence of calls from an unconfigured process, every call answers what the first one answered. That answer is "usable key accepted by the SDK". |
| Gemini.GenerateWithFallback | utils/gemini.py:36-79 | A failed configuration gives `None` without trying any model. Otherwise the primary model is tried first, and the fallback model is tried as second and last iff the primary raised `ResourceExhausted`. A response comes back iff a tried model served one, and it is exactly the last tried model's response. Any other error gives `None` with no fallback. |
| Sentences.BoundaryFrom | agent-2.py:64 | Finds the first position at or after `from` where `(?<=[.!?])\s+` can match, and there is none before it. |
| Sentences.RunEnd | agent-2.py:64 | The greedy `\s+` run starting at a position is all whitespace and stops at a non-space or at the end. |
| Sentences.SegmentRejoins | agent-2.py:64 | Interleaving the parts with the removed whitespace runs restores the text. |
| Sentences.GapsAreBlank | agent-2.py:64 | Every removed run is non-empty whitespace. |
| Sentences.PartsEndTerminal | agent-2.py:59-65 | Every part but the last ends in `.`, `!` or `?`. |
| Sentences.PartsHaveNoBoundary | agent-2.py:64 | No part contains a position where the pattern would match again. |
| Sentences.TokenizeSentences | agent-2.py:59-65 | The list is never empty. Every sentence but the last ends in terminal punctuation, and no sentence contains a split point. Every sentence after the first is empty or starts with a non-space, because `\s+` takes the whole whitespace run. |
| Sentences.TokenizeRoundTrip | agent-2.py:59-65 | Re-joining the sentences with the removed non-empty whitespace runs gives back the text. A text with no split point is one sentence. |
| Text.TrimStart | agent-2.py:83 | `lstrip` removes exactly a whitespace prefix, and the result starts with a non-space. |
| Text.TrimEnd | agent-2.py:83 | `rstrip` removes exactly a whitespace suffix, and the result ends with a non-space. |
| Text.Strip | agent-2.py:83 | `strip` gives empty iff the text is blank. Otherwise the result neither starts nor ends with whitespace. |
| Text.StripPadded | agent-2.py:83 | A text with non-space ends comes back unchanged from between blank padding. |
| Text.StripIdempotent | agent-2.py:83 | Stripping twice is stripping once. |
| Text.IndexOf | agent-2.py:158 | `sub in s` finds an occurrence, and none occurs before it. |
| Text.ReplaceAllAbsent | agent-2.py:181 | `replace` leaves a text without the target unchanged. |
| Text.ReplaceAllLeading | agent-2.py:159 | A single occurrence at the start is the one replaced, and the rest is untouched. |
| Text.ReplaceAllLength | agent-2.py:159 | `replace` changes the length by `count(target) * (len(repl) - len(target))`, with `count` the non-overlapping left-to-right count. |
| Text.ReplaceAllSelf | agent-2.py:180-181 | Replacing a text by itself changes nothing. |
| Text.SplitOnce | analyzer/completeness_analyzer.py:38 | `split(sep, 1)` has one part iff `sep` does not occur. Otherwise the two parts around `sep` rebuild the text, and the first has no earlier occurrence. |
| Text.SplitOnceAtFirst | analyzer/completeness_analyzer.py:38-39 | Splitting `a + sep + b` where `a` holds no occurrence gives back `a` and `b`. |
| Text.SplitLines | analyzer/completeness_analyzer.py:40 | `splitlines` of an empty text is empty and of a non-empty one is not. No line holds a line-break character. |
| Text.SplitLinesRoundTrip | analyzer/completeness_analyzer.py:40 | The lines, each followed by the boundary removed after it, give back the text. Every boundary is one line-break character or `\r\n`, and only a non-empty last line may end without one, so there is no empty line after a final boundary. A `\r` boundary is never followed by an empty line ending in `\n`, so `\r\n` is one boundary. |
| Text.StrippedNonBlank | analyzer/completeness_analyzer.py:40 | `[l.strip() for l in lines if l.strip()]`: the stripped lines at an increasing list of positions that holds every non-blank line and no blank one. Each kept line is non-empty with no whitespace at either end. |
| Text.NonBlankLines | analyzer/completeness_analyzer.py:40 | The same over the lines of `splitlines`: every non-blank line is kept, stripped and in order, and no blank one. A blank text yields no line. |
| Text.StripFence | agent-2.py:84-87 | At most one leading "```json" and one trailing "```" are removed, and a text with neither is unchanged. Without the leading fence only a trailing one is removed; with it, the trailing fence is removed from what follows. |
| Text.StripFenceUnwraps | agent-2.py:84-87 | Fence stripping gives back any payload wrapped in the fence. |
| Text.NatToDecimal | agent-2.py:112-116 | The instruction number renders as non-empty decimal digits without a leading zero. |
| Text.DecimalRoundTrip | agent-2.py:112-116 | Reading the rendering back gives the number. |
| Json.Lookup | analyzer/style_analyzer.py:24-25 | `dict.get` finds nothing iff no member has the key. Otherwise it finds a member's value for that key. |
| Patch.ReplyText | agent-2.py:81-88 | A reply yields text iff the call returned a response with parts whose `.text` does not raise. The text is then the stripped, fence-stripped `.text`. |
| Patch.FencedReplyYieldsPayload | agent-2.py:83-88 | A fenced payload between blank padding comes back exactly. |
| Patch.RewriteViaLlm | agent-2.py:67-94 | The reply's text, or the sentence itself when the call raised, returned nothing, returned no parts, or its text raised. |
| Patch.FirstUntyped | agent-2.py:112-115 | Finds the first directive with a field that is not a string, with every earlier directive all strings. It finds none iff all fields are strings. |
| Patch.NumberFrom | agent-2.py:112-118 | Builds the instructions iff every field is a string. The result is one for one with the directives, numbered consecutively from the start value, and carries each directive's three texts. Otherwise the error is the first non-string directive's `.strip` error. |
| Patch.Instructions | agent-2.py:112-118 | The same, numbered from 1 as `enumerate(..., start=1)` does. The texts are stripped when the prompt lines are rendered. |
| Patch.CallFullDocumentLlm | agent-2.py:96-139 | Raises iff a remaining directive has a non-string field. Otherwise it returns the reply's text, or the current text when the reply has none. |
| Patch.ExactStep | agent-2.py:155-161 | Raises exactly for a truthy non-string original, or for a truthy non-string suggestion once the original is found. Otherwise the directive becomes applied iff both fields are non-empty strings and the original occurs, and then the text becomes the replace-all. Else the text is unchanged. |
| Patch.ExactPass | agent-2.py:155-161 | Every directive keeps its fields, and a set flag stays set. Directives with string fields never raise. |
| Patch.ExactPassWithoutMatchesIsIdentity | agent-2.py:155-161 | When no original occurs, the exact pass changes neither text nor flags. |
| Patch.ExactPassIsOrderSensitive | agent-2.py:155-161 | On "A B" with ("A B"→"X") then ("B"→"Y"), the text becomes "X" and the second directive stays unapplied. |
| Patch.SingleExactMatch | agent-2.py:155-161 | An original occurring once, at the start, is rewritten in place and its directive is applied. |
| Patch.FuzzyStep | agent-2.py:165-185 | An applied directive, or one with an empty field, is left alone. With no match nothing changes. With a match, one sentence prompt is sent. The directive becomes applied iff the rewrite is non-empty and differs, and then every occurrence of the sentence is replaced. |
| Patch.FuzzyPass | agent-2.py:164-185 | Directives keep their fields and count, and directives that are not eligible are untouched. At most one sentence prompt is sent per directive. |
| Patch.StaleSentenceMarksAppliedWithoutChange | agent-2.py:175-185 | A snapshot sentence no longer in the text still marks the directive applied when the rewrite differs. The text stays unchanged. |
| Patch.FuzzyPromptsUseSnapshot | agent-2.py:164-179 | With a candidate-only matcher, every rewrite request is for a sentence of the given snapshot. |
| Patch.SentenceRewritesUseSnapshot | agent-2.py:154-179 | Every sentence rewrite in passes 1 and 2 is of a sentence of the text the exact pass left, split once before the loop. |
| Patch.Unapplied | agent-2.py:188 | The remaining directives are the directives at an increasing list of positions that holds every unapplied directive and no applied one, one for one and in list order. There are none iff all are applied. |
| Patch.ResetFlags | agent-2.py:151-152 | Every flag is cleared and nothing else changes. |
| Patch.MarkAllApplied | agent-2.py:193-194 | Every flag is set and nothing else changes. |
| Patch.ExactThenFuzzy | agent-2.py:150-185 | After passes 1 and 2, directives keep their fields, only sentence prompts were sent, and at most one per directive. |
| Patch.DocumentFallback | agent-2.py:188-194 | With nothing unapplied, nothing happens. Otherwise there is exactly one whole-document request, for the current text and the remaining directives. It raises iff a remaining field is not a string. Otherwise the text is that call's result and every directive is applied, whatever the reply. |
| Patch.ApplyReadabilityPatches | agent-2.py:142-196 | On return every directive is applied and otherwise unchanged. At most one whole-document call was made, as the last call, and at most one sentence rewrite per directive. |
| Patch.SilentFuzzyStepChangesNothing | agent-2.py:175-185 | With a service that never yields text, a fuzzy step changes neither text nor directive. |
| Patch.SilentFuzzyPassChangesNothing | agent-2.py:164-185 | With such a service, the fuzzy pass changes no text and no flag. |
| Patch.SilentServiceKeepsExactPassText | agent-2.py:142-196 | With such a service, the engine returns the text the exact pass produced. |
| Patch.ExactMatchNeedsNoService | agent-2.py:154-196 | A directive whose original occurs once, at the start, is settled by the exact pass. The engine returns the rewritten text with no service call. |
| Revise.MemberTest | agent-2.py:210 | `key in v` is key presence for a dict, element test for a list and substring test for a string. It raises for any other type. |
| Revise.Subscript | agent-2.py:210-211 | `v[key]` succeeds iff `v` is a dict holding the key, and gives its value. |
| Revise.RawSuggestions | agent-2.py:209-211 | Gives the section's suggestion list when it is a list and `[]` otherwise. It raises when the report or the section has a type the lookups reject. |
| Revise.ToDirective | agent-2.py:216-221 | A kept item becomes an unapplied "readability" directive with the item's original and suggestion, and its description or "". |
| Revise.AsDirective | agent-2.py:215 | An item is kept iff it is a dict with both keys. |
| Revise.Normalize | agent-2.py:214-223 | The result is empty iff no item is a candidate, and never longer than the input. |
| Choice.ChooseKeepsPicksInOrder | agent-2.py:188 | A filtered comprehension yields the picks at an increasing list of positions that holds every accepted item and no other. It is empty iff no item is accepted. |
| Revise.NormalizeKeepsCandidatesInOrder | agent-2.py:214-223 | Exactly the candidates are kept, each converted, in report order. |
| Revise.ReviseDocument | agent-2.py:199-234 | Aborts for a missing or empty key. Crashes iff reading the report raises. Aborts iff no directive survives normalisation. Otherwise it writes the patched text, or the scraped text when the engine raised. |
| Analysis.ObjectFindings | analyzer/style_analyzer.py:24-27 | The assessment is the object's `assessment` member or the missing-key message. A list `suggestions` member is kept, a non-list one becomes `[str(v)]`, and a missing one gives the default. |
| Analysis.ObjectFindingsRoundTrip | analyzer/style_analyzer.py:24-28 | An object carrying both keys, in any member order, gives back exactly its two values, whatever the default. |
| Analysis.MarkedFindings | analyzer/completeness_analyzer.py:38-40 | Without the marker, the stripped text and the fixed message. With it, the stripped text before the first marker, and the non-blank lines after it (after stripping the rest when the analyzer does), stripped and in order. The suggestions are then clean lines. |
| Analysis.MarkedFindingsSplitAtMarker | analyzer/completeness_analyzer.py:38-40 | For `before + marker + after` with no earlier marker, the assessment is the stripped `before`. The suggestions are exactly the non-blank lines of `after`, stripped and in order, each a non-empty string without surrounding whitespace. |
| Style.ParseLlmOutput | analyzer/style_analyzer.py:17-37 | After fence stripping, a JSON object is read by its `assessment` and `suggestions` members, with the missing-suggestions message as the default. Other JSON gives the parsing error and the raw text. Text that does not decode is split at the first "Specific changes suggested:", without stripping what follows, with the no-changes message when the marker is absent. |
| Style.ObjectReplyRoundTrip | analyzer/style_analyzer.py:23-28 | An object reply carrying both keys, in any member order, gives exactly its assessment and list. |
| Style.PlainReplySplitsAtMarker | analyzer/style_analyzer.py:29-34 | A non-JSON reply `before + marker + after` with no earlier marker gives the stripped `before`, and exactly the non-blank lines of `after`, stripped and in order. |
| Style.AnalyzeStyle | analyzer/style_analyzer.py:39-75 | A blank document gets the fixed empty findings without a call. A raised call, a `None` response, a response without parts, and a raising `.text` each give one message as both assessment and only suggestion. A usable reply is stripped and parsed. |
| Readability.InterpretReplyAsWritten | analyzer/readability_analyzer.py:65-108 | The reading as written. An object is read by its `assessment` and `suggestions` members with `[]` as the default. A bare list raises in `.get` and gives the error message with the raw text. A scalar gives the unexpected-type message and the raw text. Text that does not decode is split at the first "Suggestions:", and what follows is stripped before its lines are taken. |
| Readability.BareListIsDroppedAsWritten | analyzer/readability_analyzer.py:69-73 | As written, a bare list of other than one item is never the suggestion list, and the list branch's assessment is never set. |
| Readability.InterpretReply | analyzer/readability_analyzer.py:65-108 | The corrected reading: a bare list is the suggestion list with the fixed assessment. Every other reply is read as written. |
| Readability.AnalyzeReadability | analyzer/readability_analyzer.py:12-146 | The analyzer as written. A blank document gets no score and the empty findings. The score is kept iff it was computed. With no response, the only suggestion is the failure message. A response without parts reports its block reason, and a raising `.text` is a processing failure. Otherwise the stripped, fence-stripped reply is read as written, so a bare list gives the `.get` error. |
| Readability.AnalyzeReadabilityIntended | analyzer/readability_analyzer.py:68-73 | The analyzer with the corrected reading. It agrees with the analyzer as written on every reply except a bare JSON list, which it keeps as the suggestion list with the fixed assessment and the same score. |
| Readability.PlainReplySplitsAtMarker | analyzer/readability_analyzer.py:94-103 | A non-JSON reply `before + "Suggestions:" + after` with no earlier marker gives the stripped `before`, and exactly the non-blank lines of the stripped `after`, stripped and in order. |
| Readability.ScoreQuotedIffScored | analyzer/readability_analyzer.py:130-141 | With no response, the assessment quotes the score iff the score was computed. Otherwise it is the bare failure message. |
| Readability.ObjectReplyRoundTrip | analyzer/readability_analyzer.py:74-81 | A usable reply decoding to an object that carries both keys, in any member order, gives exactly its assessment and list, and the score is kept iff it was computed. |
| Completeness.InterpretReply | analyzer/completeness_analyzer.py:27-44 | An object is read by its `assessment` and `suggestions` members with the missing-suggestions message as the default. Other JSON gives the `.get` error and the raw text. Text that does not decode is split at the first "Suggestions:", and what follows is stripped before its lines are taken. |
| Completeness.PlainReplySplitsAtMarker | analyzer/completeness_analyzer.py:38-40 | A non-JSON reply `before + "Suggestions:" + after` with no earlier marker gives the stripped `before`, and exactly the non-blank lines of the stripped `after`, stripped and in order. |
| Completeness.AnalyzeCompleteness | analyzer/completeness_analyzer.py:10-60 | Raises iff the document is not blank and the call raised, with that message. A blank document gets the empty findings. No response gives the failure message twice. No parts gives the block message, and a raising `.text` is a processing failure. |
| Completeness.ObjectReplyRoundTrip | analyzer/completeness_analyzer.py:30-34 | A usable reply decoding to an object that carries both keys, in any member order, gives exactly its assessment and list. |
| Runner.RankOfMessages | analyzer/analysis_runner.py:30-54 | Each of the four failure messages names its own analyzer, and only that one. |
| Runner.RunFullAnalysis | analyzer/analysis_runner.py:11-56 | The report carries the URL. Each section is its analyzer's result, or `None` when that analyzer raised. There is one error per failed analyzer, carrying its prefixed message, and the errors follow the running order. A section is missing iff an error names its analyzer. |
| Runner.ErrorsCarryMessages | analyzer/analysis_runner.py:28-54 | There is one error per failed analyzer, carrying its prefixed message. |
| Runner.ErrorsFollowRunningOrder | analyzer/analysis_runner.py:24-54 | A later message names a later analyzer. |
| Runner.MissingSectionsAreNamed | analyzer/analysis_runner.py:24-54 | A section is missing iff an error names its analyzer. |
| Runner.OnlyStructureAndCompletenessFail | analyzer/analysis_runner.py:24-54 | With this model's analyzers, the readability and style sections are always present and never named in the errors. The completeness section is missing iff the document is not blank and its call raised, and then the message is recorded. |

## Left out

- File and environment I/O: reading the key, the two input files and writing the output (agent-2.py:17-57, 236-243). The key, the scraped text and the decoded report are parameters, and `sys.exit` is an `Outcome`.
- Logging throughout, including the truncated sentence previews in the log messages.
- `main.py` (the HTTP wrapper) and `utils/content_fetcher.py` (browser automation and HTML extraction): I/O outside the core.
- `analyzer/prompts.py`. The analyzer prompt templates are opaque: each analyzer's service is indexed by the document.
- The warning for prompts over 750000 characters only logs.
- `analyzer/structure_analyzer.py` is not part of this model. The runner takes the structure analyzer as a parameter.
- The Gemini SDK itself: `genai.configure` is the predicate `sdkAccepts` and a model call is an `Attempt`. The configuration flags are modelled in `Gemini`, but the analyzers and the engine see the service as a function, not threading that state.
- difflib's similarity ratio and its 0.75 cutoff: `closest` is an oracle, constrained only by `Patch.PicksCandidate` where a lemma needs it.
- The readability score: textstat's floating-point computation and its rendering are replaced by `Score`, the rendered value or the raised message.
- `extract_text_from_response`'s `hasattr` probing and its join-the-parts fallback: responses always have `.text` (which may raise) and `parts`.
- The truthiness of a response object (`if response:`) is taken to be true. A missing `prompt_feedback` or block-reason message is a `None` block reason or an empty message.
- The LLM receives a structured `Prompt` (sentence plus instruction, or document plus numbered instructions). `Patch.Render` gives the exact text. `Render` and `Patch.InstructionLines` carry no contract beyond their definitions.
- Json.Repr: strings are quoted without escaping, and float renderings are carried as given. It is used only inside error and suggestion texts.
- `json.loads` is a decoder parameter, with objects as member lists in document order and distinct keys.
- Gemini.GenerateWithFallback: the last-exception bookkeeping only feeds a log line, so it is not returned.
- Patch.FuzzyStep: the error for a truthy non-string original is a placeholder message. The exact pass raises on such a directive first (agent-2.py:158), so the engine never reaches the fuzzy call that would fail.

## Findings

| source | as written | input that shows it | evidently intended | confidence | as-written member | corrected member |
|---|---|---|---|---|---|---|
| analyzer/readability_analyzer.py:69-73 | The branch for a decoded list calls `llm_data.get(...)`. A list has no `.get`, so the branch always raises, the handler at lines 105-108 reports "Error processing LLM JSON: 'list' object has no attribute 'get'", and the list is dropped | a reply whose text is the JSON array `[{"original": "a", "suggestion": "b"}, {"original": "c", "suggestion": "d"}]` | a bare list is the suggestion list, with the assessment "LLM returned suggestions without a top-level object." | high; not executed | Readability.InterpretReplyAsWritten, Readability.BareListIsDroppedAsWritten, Readability.AnalyzeReadability | Readability.InterpretReply, Readability.AnalyzeReadabilityIntended |

The intent is read from the code itself. The comment at analyzer/readability_analyzer.py:68
announces handling for a reply that is a list. Line 71 supplies a default assessment for that
case, "LLM returned suggestions without a top-level object.", and line 73 keeps the list as the
suggestions. `Readability.AnalyzeReadability` and the runner model the analyzer as written.
`Readability.AnalyzeReadabilityIntended` is the analyzer with the list branch doing what these
lines describe, and it differs from the analyzer as written only on a bare list.
