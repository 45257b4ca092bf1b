/** The patch engine of `agent-2.py` (`apply_readability_patches` and the two
    generation helpers it calls). Directives are applied to a document in
    three passes: exact replacement, a fuzzy sentence match followed by a
    one-sentence rewrite, and one whole-document rewrite for whatever is
    still unapplied.

    The generation service is the parameter `llm` (prompt to reply) and the
    similarity search the parameter `closest`, which stands for difflib's
    `get_close_matches(orig, sentences, n=1, cutoff=0.75)`. A raised
    exception is an `Err`. */
module Patch {
  import opened Wrappers
  import opened Choice
  import opened Text
  import opened Json
  import Gemini
  import Sentences

  /** One edit directive. The fields hold whatever JSON values the report
      carried: the normaliser only checks that the keys are present. */
  datatype Directive = Directive(kind: string, description: Json, original: Json, suggestion: Json, applied: bool)

  /** One numbered edit instruction of the whole-document prompt: the three
      text fields of a directive, which the prompt shows stripped. */
  datatype Instruction = Instruction(number: nat, description: string, original: string, suggestion: string)

  /** A request to the generation service: a one-sentence rewrite, or a
      whole-document rewrite carrying the document and one instruction per
      remaining directive. The service is given the request; `Render` is
      the exact text sent for it. */
  datatype Prompt =
    | SentencePrompt(sentence: string, instruction: string)
    | DocumentPrompt(text: string, instructions: seq<Instruction>)

  type Llm = Prompt -> Gemini.Reply
  type Matcher = (string, seq<string>) -> Option<string>

  /** A matcher that only ever picks one of the candidates, as `get_close_matches` does. */
  ghost predicate PicksCandidate(closest: Matcher) {
    forall orig, candidates :: closest(orig, candidates).Some? ==> closest(orig, candidates).value in candidates
  }

  /** The three text fields are strings, so that `.strip()`, `in` and `replace` accept them. */
  predicate TextFields(d: Directive) {
    d.description.JString? && d.original.JString? && d.suggestion.JString?
  }

  predicate AllTextFields(ds: seq<Directive>) {
    forall k :: 0 <= k < |ds| ==> TextFields(ds[k])
  }

  // ------------------------------------------------------------ replies

  /** The text a reply contributes: `output.text.strip()` with the JSON fence
      removed, when the call returned a response that has parts and whose
      `.text` does not raise. */
  function ReplyText(reply: Gemini.Reply): (r: Option<string>)
    ensures r.Some? <==>
      reply.Returned? && reply.response.Some? && reply.response.value.parts != [] && reply.response.value.text.Ok?
    ensures r.Some? ==> r.value == StripFence(Strip(reply.response.value.text.value))
  {
    if reply.Raised? || reply.response.None? then None
    else
      var response := reply.response.value;
      if response.parts == [] || response.text.Err? then None
      else Some(StripFence(Strip(response.text.value)))
  }

  /** A reply whose text is a fenced JSON payload between whitespace yields
      exactly the payload. */
  lemma FencedReplyYieldsPayload(parts: seq<string>, pre: string, payload: string, post: string, block: Option<Gemini.BlockReason>)
    requires parts != [] && IsBlank(pre) && IsBlank(post)
    ensures ReplyText(Gemini.Returned(Some(Gemini.Response(parts, Ok(pre + (JsonFence + payload + Fence) + post), block))))
      == Some(payload)
  {
    var fenced := JsonFence + payload + Fence;
    FenceEnds(payload);
    StripPadded(pre, fenced, post);
    StripFenceUnwraps(payload);
  }

  lemma FenceEnds(payload: string)
    ensures (JsonFence + payload + Fence)[0] == '`'
    ensures (JsonFence + payload + Fence)[|JsonFence + payload + Fence| - 1] == '`'
  {
  }

  /** `rewrite_via_llm`: the reply's text, or the sentence itself when the
      call raised, returned `None`, returned no parts, or its text raised. */
  function RewriteViaLlm(sentence: string, instruction: string, llm: Llm): (r: string)
    ensures ReplyText(llm(SentencePrompt(sentence, instruction))).None? ==> r == sentence
    ensures ReplyText(llm(SentencePrompt(sentence, instruction))).Some? ==>
      r == ReplyText(llm(SentencePrompt(sentence, instruction))).value
  {
    ReplyText(llm(SentencePrompt(sentence, instruction))).GetOr(sentence)
  }

  // ------------------------------------------------------------ full-document prompt

  const DocumentPreamble: string :=
    "You are an expert documentation editor. Below is the current document, followed by edit instructions.\n"
    + "Apply each instruction precisely where needed and return the entire revised document. "
    + "Keep all existing headings and formatting markers (e.g., '[H1]', '[H2]').\n\n"

  /** The instruction for a directive whose fields are strings. */
  function ToInstruction(d: Directive, number: nat): Instruction
    requires TextFields(d)
  {
    Instruction(number, d.description.str, d.original.str, d.suggestion.str)
  }

  /** The error of stripping the first field of `d` that is not a string. */
  function FieldError(d: Directive): string {
    var field :=
      if !d.description.JString? then d.description
      else if !d.original.JString? then d.original
      else d.suggestion;
    "'" + TypeName(field) + "' object has no attribute 'strip'"
  }

  /** The position of the first directive with a field that is not a string. */
  function FirstUntyped(ds: seq<Directive>): (r: Option<nat>)
    ensures r.Some? ==> r.value < |ds| && !TextFields(ds[r.value]) && AllTextFields(ds[..r.value])
    ensures r.None? <==> AllTextFields(ds)
  {
    if ds == [] then None
    else if !TextFields(ds[0]) then Some(0)
    else
      var rest := FirstUntyped(ds[1..]);
      AllTextFieldsCons(ds);
      if rest.None? then None
      else
        assert ds[..rest.value + 1] == [ds[0]] + ds[1..][..rest.value];
        AllTextFieldsCons(ds[..rest.value + 1]);
        Some(rest.value + 1)
  }

  lemma AllTextFieldsCons(ds: seq<Directive>)
    requires ds != []
    ensures AllTextFields(ds) <==> TextFields(ds[0]) && AllTextFields(ds[1..])
  {
    if TextFields(ds[0]) && AllTextFields(ds[1..]) {
      forall k | 1 <= k < |ds|
        ensures TextFields(ds[k])
      {
        assert ds[k] == ds[1..][k - 1];
      }
    }
  }

  /** `i` carries the three fields of `d`. */
  predicate Describes(i: Instruction, d: Directive) {
    && TextFields(d)
    && i.description == d.description.str
    && i.original == d.original.str
    && i.suggestion == d.suggestion.str
  }

  /** `ins` are the instructions for `ds`, one for one, numbered from `n`. */
  predicate Numbered(ins: seq<Instruction>, ds: seq<Directive>, n: nat) {
    && |ins| == |ds|
    && forall k :: 0 <= k < |ds| ==> ins[k].number == n + k && Describes(ins[k], ds[k])
  }

  lemma ConsNumbered(i: Instruction, d: Directive, ins: seq<Instruction>, ds: seq<Directive>, n: nat)
    requires i.number == n && Describes(i, d)
    requires Numbered(ins, ds, n + 1)
    ensures Numbered([i] + ins, [d] + ds, n)
  {
    var all := [i] + ins;
    var dirs := [d] + ds;
    forall k | 0 <= k < |dirs|
      ensures all[k].number == n + k && Describes(all[k], dirs[k])
    {
      if k > 0 {
        var j := k - 1;
        assert ins[j].number == n + 1 + j && Describes(ins[j], ds[j]);
        assert all[k] == ins[j];
        assert dirs[k] == ds[j];
      }
    }
    assert |all| == |dirs|;
  }

  /** The instructions for the directives, numbered from `n`; stripping
      raises on the first directive with a field that is not a string. */
  function NumberFrom(ds: seq<Directive>, n: nat): (r: Result<seq<Instruction>>)
    ensures r.Ok? <==> AllTextFields(ds)
    ensures r.Ok? ==> Numbered(r.value, ds, n)
    ensures r.Err? ==> r.error == FieldError(ds[FirstUntyped(ds).value])
    decreases |ds|
  {
    if ds == [] then Ok([])
    else if !TextFields(ds[0]) then Err(FieldError(ds[0]))
    else
      var rest := NumberFrom(ds[1..], n + 1);
      AllTextFieldsCons(ds);
      if rest.Err? then Err(rest.error)
      else
        var first := ToInstruction(ds[0], n);
        ConsNumbered(first, ds[0], rest.value, ds[1..], n);
        assert [ds[0]] + ds[1..] == ds;
        Ok([first] + rest.value)
  }

  /** The instructions for the directives, numbered from 1 in input order:
      stripping raises on the first field that is not a string. */
  function Instructions(ds: seq<Directive>): (r: Result<seq<Instruction>>)
    ensures r.Ok? <==> AllTextFields(ds)
    ensures r.Ok? ==> Numbered(r.value, ds, 1)
    ensures r.Err? ==> r.error == FieldError(ds[FirstUntyped(ds).value])
  {
    NumberFrom(ds, 1)
  }

  /** The three prompt lines of each instruction, fields stripped, one instruction after another. */
  function InstructionLines(ins: seq<Instruction>): seq<string> {
    if ins == [] then []
    else
      [ NatToDecimal(ins[0].number) + ". " + Strip(ins[0].description),
        "   Original: \"" + Strip(ins[0].original) + "\"",
        "   Suggested rewrite: \"" + Strip(ins[0].suggestion) + "\"\n" ]
      + InstructionLines(ins[1..])
  }

  function DocumentHeader(text: string): (r: seq<string>)
    ensures |r| == 5 && r[2] == text
  {
    [DocumentPreamble, "--- CURRENT DOCUMENT START ---", text, "--- CURRENT DOCUMENT END ---\n", "--- EDIT INSTRUCTIONS START ---"]
  }

  const DocumentFooter: string := "--- EDIT INSTRUCTIONS END ---"

  /** The text sent for a request: the prompts of `rewrite_via_llm` and of
      `call_full_document_llm`, the latter being its lines joined by newlines. */
  function Render(p: Prompt): string {
    match p
    case SentencePrompt(sentence, instruction) =>
      "You are a documentation editor focused on readability.\n"
      + "Please rewrite the following sentence based solely on this instruction, and return only the revised sentence:\n\n"
      + "Sentence:\n\"\"\"" + sentence + "\"\"\"\n\n"
      + "Instruction:\n\"\"\"" + instruction + "\"\"\"\n"
    case DocumentPrompt(text, instructions) =>
      Join("\n", DocumentHeader(text) + InstructionLines(instructions) + [DocumentFooter])
  }

  /** `call_full_document_llm`: building the prompt raises on a non-string
      field; otherwise the reply's text, or `text` itself when the reply has
      no usable text. */
  function CallFullDocumentLlm(text: string, remaining: seq<Directive>, llm: Llm): (r: Result<string>)
    ensures r.Ok? <==> AllTextFields(remaining)
    ensures r.Ok? ==> ReplyText(llm(DocumentPrompt(text, Instructions(remaining).value))).None? ==> r.value == text
    ensures r.Ok? ==> ReplyText(llm(DocumentPrompt(text, Instructions(remaining).value))).Some? ==>
      r.value == ReplyText(llm(DocumentPrompt(text, Instructions(remaining).value))).value
  {
    var instructions :- Instructions(remaining);
    Ok(ReplyText(llm(DocumentPrompt(text, instructions))).GetOr(text))
  }

  // ------------------------------------------------------------ pass 1: exact replacement

  /** The exact pass rewrites with this directive: both fields are non-empty
      strings and the original occurs in the current text. */
  predicate ExactFires(text: string, d: Directive) {
    && d.original.JString? && d.suggestion.JString?
    && d.original.str != [] && d.suggestion.str != []
    && Contains(text, d.original.str)
  }

  /** One iteration of the exact pass: `if orig and new and orig in text`. A
      truthy non-string original makes `in` raise, and a truthy non-string
      suggestion makes `replace` raise once the original is found. */
  function ExactStep(text: string, d: Directive): (r: Result<(string, Directive)>)
    ensures r.Err? <==>
      Truthy(d.original) && Truthy(d.suggestion) &&
      (!d.original.JString? || (Contains(text, d.original.str) && !d.suggestion.JString?))
    ensures r.Ok? ==> r.value.1 == d.(applied := d.applied || ExactFires(text, d))
    ensures r.Ok? && ExactFires(text, d) ==> r.value.0 == ReplaceAll(text, d.original.str, d.suggestion.str)
    ensures r.Ok? && !ExactFires(text, d) ==> r.value.0 == text
  {
    if !Truthy(d.original) || !Truthy(d.suggestion) then Ok((text, d))
    else if !d.original.JString? then
      Err("'in <string>' requires string as left operand, not " + TypeName(d.original))
    else if !Contains(text, d.original.str) then Ok((text, d))
    else if !d.suggestion.JString? then
      Err("replace() argument 2 must be str, not " + TypeName(d.suggestion))
    else Ok((ReplaceAll(text, d.original.str, d.suggestion.str), d.(applied := true)))
  }

  /** The exact pass: every directive in order, each seeing the text the
      earlier ones left. */
  function ExactPass(text: string, ds: seq<Directive>): (r: Result<(string, seq<Directive>)>)
    ensures r.Ok? ==> |r.value.1| == |ds|
    ensures r.Ok? ==> forall k :: 0 <= k < |ds| ==> r.value.1[k] == ds[k].(applied := r.value.1[k].applied)
    ensures r.Ok? ==> forall k :: 0 <= k < |ds| && ds[k].applied ==> r.value.1[k].applied
    ensures (forall k :: 0 <= k < |ds| ==> ds[k].original.JString? && ds[k].suggestion.JString?) ==> r.Ok?
    decreases |ds|
  {
    if ds == [] then Ok((text, []))
    else
      var step := ExactStep(text, ds[0]);
      if step.Err? then Err(step.error)
      else
        var rest := ExactPass(step.value.0, ds[1..]);
        assert forall k :: 1 <= k < |ds| ==> ds[k] == ds[1..][k - 1];
        if rest.Err? then Err(rest.error)
        else Ok((rest.value.0, [step.value.1] + rest.value.1))
  }

  /** When no directive's original occurs in the text, the exact pass changes
      neither the text nor any flag; in particular a second exact pass after
      the originals are gone is a no-op. */
  lemma {:induction false} ExactPassWithoutMatchesIsIdentity(text: string, ds: seq<Directive>)
    requires forall k :: 0 <= k < |ds| ==> ds[k].original.JString? && ds[k].suggestion.JString?
    requires forall k :: 0 <= k < |ds| ==> !Contains(text, ds[k].original.str)
    ensures ExactPass(text, ds) == Ok((text, ds))
    decreases |ds|
  {
    if ds != [] {
      assert ExactStep(text, ds[0]) == Ok((text, ds[0]));
      assert forall k :: 1 <= k < |ds| ==> ds[k] == ds[1..][k - 1];
      ExactPassWithoutMatchesIsIdentity(text, ds[1..]);
      assert [ds[0]] + ds[1..] == ds;
    }
  }

  function TextDirective(original: string, suggestion: string): Directive {
    Directive("readability", JString(""), JString(original), JString(suggestion), false)
  }

  /** The exact pass depends on order: on "A B", replacing "A B" by "X" first
      removes the "B" a later directive was looking for. */
  lemma ExactPassIsOrderSensitive()
    ensures ExactPass("A B", [TextDirective("A B", "X"), TextDirective("B", "Y")])
      == Ok(("X", [TextDirective("A B", "X").(applied := true), TextDirective("B", "Y")]))
  {
    var d1 := TextDirective("A B", "X");
    var d2 := TextDirective("B", "Y");
    assert OccursAt("A B", "A B", 0);
    assert IndexOf("A B", "A B") == Some(0);
    assert IndexOf("", "A B") == None;
    assert ReplaceAll("A B", "A B", "X") == "X";
    assert ExactStep("A B", d1) == Ok(("X", d1.(applied := true)));
    assert !OccursAt("X", "B", 0);
    assert IndexFrom("X", "B", 1) == None;
    assert !Contains("X", "B");
    assert ExactStep("X", d2) == Ok(("X", d2));
    assert [d2][1..] == [];
    assert [d1, d2][1..] == [d2];
    assert ExactPass("X", []) == Ok(("X", []));
    assert [d2] + [] == [d2];
    assert ExactPass("X", [d2]) == Ok(("X", [d2]));
    assert [d1.(applied := true)] + [d2] == [d1.(applied := true), d2];
  }

  /** A single exact match at the start of the text: the directive is
      applied and the original is replaced in place, the rest untouched. */
  lemma SingleExactMatch(orig: string, sugg: string, tail: string)
    requires orig != [] && sugg != [] && !Contains(tail, orig)
    ensures ExactPass(orig + tail, [TextDirective(orig, sugg)])
      == Ok((sugg + tail, [TextDirective(orig, sugg).(applied := true)]))
  {
    var d := TextDirective(orig, sugg);
    assert OccursAt(orig + tail, orig, 0) by {
      assert (orig + tail)[..|orig|] == orig;
    }
    ReplaceAllLeading(orig, sugg, tail);
    assert ExactStep(orig + tail, d) == Ok((sugg + tail, d.(applied := true)));
    assert [d][1..] == [];
    assert ExactPass(sugg + tail, []) == Ok((sugg + tail, []));
    assert [d.(applied := true)] + [] == [d.(applied := true)];
  }

  // ------------------------------------------------------------ pass 2: fuzzy match and rewrite

  /** The instruction of a fuzzy rewrite: the suggestion as an f-string renders it. */
  function RewriteInstruction(suggestion: Json): string {
    "Please rewrite for better readability: " + PyStr(suggestion)
  }

  /** The fuzzy pass looks at this directive: not yet applied, and both fields truthy. */
  predicate FuzzyEligible(d: Directive) {
    !d.applied && Truthy(d.original) && Truthy(d.suggestion)
  }

  /** The outcome of one fuzzy iteration: the text, the directive, and the
      sentence-rewrite prompts sent. */
  datatype Step = Step(text: string, directive: Directive, prompts: seq<Prompt>)

  /** One iteration of the fuzzy pass against the sentence snapshot. A
      matched sentence is sent for rewriting; a non-empty rewrite that
      differs from it replaces every occurrence of it and marks the directive
      applied. (A truthy non-string original has already made the exact pass
      raise, so the `Err` here is never reached from the engine.) */
  function FuzzyStep(text: string, sentences: seq<string>, d: Directive, llm: Llm, closest: Matcher): (r: Result<Step>)
    ensures r.Ok? ==> SentencePrompts(r.value.prompts) && |r.value.prompts| <= 1
    ensures r.Ok? ==> r.value.directive == d.(applied := r.value.directive.applied)
    ensures !FuzzyEligible(d) ==> r == Ok(Step(text, d, []))
    ensures FuzzyEligible(d) && d.original.JString? && closest(d.original.str, sentences).None? ==>
      r == Ok(Step(text, d, []))
    ensures FuzzyEligible(d) && d.original.JString? && closest(d.original.str, sentences).Some? ==>
      var m := closest(d.original.str, sentences).value;
      var rewritten := RewriteViaLlm(m, RewriteInstruction(d.suggestion), llm);
      var fires := rewritten != [] && rewritten != m;
      && r.Ok?
      && r.value.prompts == [SentencePrompt(m, RewriteInstruction(d.suggestion))]
      && r.value.directive == d.(applied := fires)
      && r.value.text == (if fires then ReplaceAll(text, m, rewritten) else text)
  {
    if !FuzzyEligible(d) then Ok(Step(text, d, []))
    else if !d.original.JString? then
      Err("get_close_matches: the original is not a string")
    else
      var found := closest(d.original.str, sentences);
      if found.None? then Ok(Step(text, d, []))
      else
        var m := found.value;
        var instruction := RewriteInstruction(d.suggestion);
        var rewritten := RewriteViaLlm(m, instruction, llm);
        var prompt := SentencePrompt(m, instruction);
        if rewritten != [] && rewritten != m then
          Ok(Step(ReplaceAll(text, m, rewritten), d.(applied := true), [prompt]))
        else
          Ok(Step(text, d, [prompt]))
  }

  /** `out` is `ds` with only the flags possibly changed, and the directives
      the fuzzy pass does not look at are unchanged. */
  predicate FuzzyKeeps(out: seq<Directive>, ds: seq<Directive>) {
    && |out| == |ds|
    && (forall k :: 0 <= k < |ds| ==> out[k] == ds[k].(applied := out[k].applied))
    && (forall k :: 0 <= k < |ds| && !FuzzyEligible(ds[k]) ==> out[k] == ds[k])
  }

  /** Every request is a one-sentence rewrite. */
  predicate SentencePrompts(prompts: seq<Prompt>) {
    forall k :: 0 <= k < |prompts| ==> prompts[k].SentencePrompt?
  }

  lemma ConsFuzzyKeeps(o: Directive, d: Directive, out: seq<Directive>, ds: seq<Directive>)
    requires o == d.(applied := o.applied) && (!FuzzyEligible(d) ==> o == d)
    requires FuzzyKeeps(out, ds)
    ensures FuzzyKeeps([o] + out, [d] + ds)
  {
    forall k | 1 <= k < |ds| + 1
      ensures ([o] + out)[k] == ([d] + ds)[k].(applied := ([o] + out)[k].applied)
      ensures !FuzzyEligible(([d] + ds)[k]) ==> ([o] + out)[k] == ([d] + ds)[k]
    {
      assert ([o] + out)[k] == out[k - 1] && ([d] + ds)[k] == ds[k - 1];
    }
  }

  lemma AppendSentencePrompts(x: seq<Prompt>, y: seq<Prompt>)
    requires SentencePrompts(x) && SentencePrompts(y)
    ensures SentencePrompts(x + y)
  {
    forall k | |x| <= k < |x + y|
      ensures (x + y)[k].SentencePrompt?
    {
      assert (x + y)[k] == y[k - |x|];
    }
  }

  /** The fuzzy pass: every directive in order, all matched against the same
      sentence snapshot. */
  function FuzzyPass(text: string, sentences: seq<string>, ds: seq<Directive>, llm: Llm, closest: Matcher):
    (r: Result<(string, seq<Directive>, seq<Prompt>)>)
    ensures r.Ok? ==> FuzzyKeeps(r.value.1, ds)
    ensures r.Ok? ==> SentencePrompts(r.value.2) && |r.value.2| <= |ds|
    decreases |ds|
  {
    if ds == [] then Ok((text, [], []))
    else
      var step := FuzzyStep(text, sentences, ds[0], llm, closest);
      if step.Err? then Err(step.error)
      else
        var rest := FuzzyPass(step.value.text, sentences, ds[1..], llm, closest);
        if rest.Err? then Err(rest.error)
        else
          ConsFuzzyKeeps(step.value.directive, ds[0], rest.value.1, ds[1..]);
          assert [ds[0]] + ds[1..] == ds;
          AppendSentencePrompts(step.value.prompts, rest.value.2);
          Ok((rest.value.0, [step.value.directive] + rest.value.1, step.value.prompts + rest.value.2))
  }

  /** A stale snapshot sentence that no longer occurs in the text still marks
      the directive applied when the rewrite differs, and the text is unchanged. */
  lemma StaleSentenceMarksAppliedWithoutChange(text: string, sentences: seq<string>, d: Directive, llm: Llm, closest: Matcher)
    requires FuzzyEligible(d) && d.original.JString?
    requires closest(d.original.str, sentences).Some?
    requires var m := closest(d.original.str, sentences).value;
      var rewritten := RewriteViaLlm(m, RewriteInstruction(d.suggestion), llm);
      rewritten != [] && rewritten != m && !Contains(text, m)
    ensures FuzzyStep(text, sentences, d, llm, closest).Ok?
    ensures FuzzyStep(text, sentences, d, llm, closest).value.text == text
    ensures FuzzyStep(text, sentences, d, llm, closest).value.directive.applied
  {
    var m := closest(d.original.str, sentences).value;
    ReplaceAllAbsent(text, m, RewriteViaLlm(m, RewriteInstruction(d.suggestion), llm));
  }

  /** Every prompt is a sentence rewrite of one of the `sentences`. */
  ghost predicate FromSnapshot(prompts: seq<Prompt>, sentences: seq<string>) {
    forall k :: 0 <= k < |prompts| ==> prompts[k].SentencePrompt? && prompts[k].sentence in sentences
  }

  lemma AppendFromSnapshot(x: seq<Prompt>, y: seq<Prompt>, sentences: seq<string>)
    requires FromSnapshot(x, sentences) && FromSnapshot(y, sentences)
    ensures FromSnapshot(x + y, sentences)
  {
    forall k | 0 <= k < |x + y|
      ensures (x + y)[k].SentencePrompt? && (x + y)[k].sentence in sentences
    {
      if k >= |x| {
        assert (x + y)[k] == y[k - |x|];
      }
    }
  }

  /** With a matcher that only picks candidates, every rewrite the fuzzy pass
      asks for is of a sentence of the snapshot it was given: the snapshot is
      never refreshed, whatever earlier rewrites did to the text. */
  lemma {:induction false} FuzzyPromptsUseSnapshot(text: string, sentences: seq<string>, ds: seq<Directive>, llm: Llm, closest: Matcher)
    requires PicksCandidate(closest)
    requires FuzzyPass(text, sentences, ds, llm, closest).Ok?
    ensures FromSnapshot(FuzzyPass(text, sentences, ds, llm, closest).value.2, sentences)
    decreases |ds|
  {
    if ds != [] {
      var step := FuzzyStep(text, sentences, ds[0], llm, closest).value;
      var rest := FuzzyPass(step.text, sentences, ds[1..], llm, closest);
      assert FuzzyPass(text, sentences, ds, llm, closest).value.2 == step.prompts + rest.value.2;
      FuzzyPromptsUseSnapshot(step.text, sentences, ds[1..], llm, closest);
      assert FromSnapshot(step.prompts, sentences);
      AppendFromSnapshot(step.prompts, rest.value.2, sentences);
    }
  }

  // ------------------------------------------------------------ pass 3 and the whole engine

  /** A directive the fallback still has to handle. */
  function Pending(d: Directive): (r: Option<Directive>)
    ensures r.Some? <==> !d.applied
    ensures r.Some? ==> r.value == d
  {
    if d.applied then None else Some(d)
  }

  /** The positions of the unapplied directives, increasing. */
  function PendingAt(ds: seq<Directive>): (r: seq<nat>)
    ensures forall i, j :: 0 <= i < j < |r| ==> r[i] < r[j]
  {
    Positions(ds, 0, Pending)
  }

  /** `[d for d in directives if not d["applied"]]`: the directives at an
      increasing list of positions that names every unapplied directive and
      no other, one for one and in input order. */
  function Unapplied(ds: seq<Directive>): (r: seq<Directive>)
    ensures forall k :: 0 <= k < |ds| ==> (k in PendingAt(ds) <==> !ds[k].applied)
    ensures |r| == |PendingAt(ds)|
    ensures forall j :: 0 <= j < |r| ==> PendingAt(ds)[j] < |ds| && r[j] == ds[PendingAt(ds)[j]]
    ensures forall k :: 0 <= k < |r| ==> !r[k].applied && r[k] in ds
    ensures r == [] <==> forall k :: 0 <= k < |ds| ==> ds[k].applied
  {
    ChooseKeepsPicksInOrder(ds, Pending);
    var r := Choose(ds, 0, Pending);
    var at := PendingAt(ds);
    assert Follows(r, at, ds, Pending);
    forall j | 0 <= j < |at|
      ensures r[j] == ds[at[j]] && !r[j].applied
    {
      assert r[j] == Pending(ds[at[j]]).value;
    }
    r
  }

  /** Every flag cleared, as the engine does before its first pass. */
  function ResetFlags(ds: seq<Directive>): (r: seq<Directive>)
    ensures |r| == |ds|
    ensures forall k :: 0 <= k < |ds| ==> r[k] == ds[k].(applied := false)
  {
    seq(|ds|, k requires 0 <= k < |ds| => ds[k].(applied := false))
  }

  /** Every flag set. */
  function MarkAllApplied(ds: seq<Directive>): (r: seq<Directive>)
    ensures |r| == |ds|
    ensures forall k :: 0 <= k < |ds| ==> r[k] == ds[k].(applied := true)
  {
    seq(|ds|, k requires 0 <= k < |ds| => ds[k].(applied := true))
  }

  /** The state of a run: the text, the directives, and the requests sent
      to the generation service, in order. */
  datatype Run = Run(text: string, directives: seq<Directive>, calls: seq<Prompt>)

  /** Passes 1 and 2, with every flag first reset to false. */
  function ExactThenFuzzy(text: string, ds: seq<Directive>, llm: Llm, closest: Matcher): (r: Result<Run>)
    ensures r.Ok? ==> |r.value.directives| == |ds|
    ensures r.Ok? ==> forall k :: 0 <= k < |ds| ==> r.value.directives[k] == ds[k].(applied := r.value.directives[k].applied)
    ensures r.Ok? ==> forall k :: 0 <= k < |r.value.calls| ==> r.value.calls[k].SentencePrompt?
    ensures r.Ok? ==> |r.value.calls| <= |ds|
  {
    var exact := ExactPass(text, ResetFlags(ds));
    if exact.Err? then Err(exact.error)
    else
      var snapshot := Sentences.TokenizeSentences(exact.value.0);
      var fuzzy := FuzzyPass(exact.value.0, snapshot, exact.value.1, llm, closest);
      if fuzzy.Err? then Err(fuzzy.error)
      else Ok(Run(fuzzy.value.0, fuzzy.value.1, fuzzy.value.2))
  }

  /** The sentence rewrites of passes 1 and 2 are all of sentences of the
      text the exact pass left, split once before the fuzzy loop. */
  lemma SentenceRewritesUseSnapshot(text: string, ds: seq<Directive>, llm: Llm, closest: Matcher)
    requires PicksCandidate(closest)
    requires ExactThenFuzzy(text, ds, llm, closest).Ok?
    ensures ExactPass(text, ResetFlags(ds)).Ok?
    ensures FromSnapshot(ExactThenFuzzy(text, ds, llm, closest).value.calls,
                         Sentences.TokenizeSentences(ExactPass(text, ResetFlags(ds)).value.0))
  {
    var exact := ExactPass(text, ResetFlags(ds)).value;
    FuzzyPromptsUseSnapshot(exact.0, Sentences.TokenizeSentences(exact.0), exact.1, llm, closest);
  }

  /** Pass 3: skipped when nothing is unapplied; otherwise exactly one
      full-document call with the unapplied directives, after which every
      directive counts as applied, whatever the reply was. */
  function DocumentFallback(run: Run, llm: Llm): (r: Result<Run>)
    ensures Unapplied(run.directives) == [] ==> r == Ok(run)
    ensures Unapplied(run.directives) != [] ==>
      (r.Ok? <==> AllTextFields(Unapplied(run.directives)))
    ensures Unapplied(run.directives) != [] && r.Ok? ==>
      && r.value.text == CallFullDocumentLlm(run.text, Unapplied(run.directives), llm).value
      && r.value.directives == MarkAllApplied(run.directives)
      && r.value.calls == run.calls + [DocumentPrompt(run.text, Instructions(Unapplied(run.directives)).value)]
  {
    var remaining := Unapplied(run.directives);
    if remaining == [] then Ok(run)
    else
      var text := CallFullDocumentLlm(run.text, remaining, llm);
      if text.Err? then Err(text.error)
      else
        var prompt := DocumentPrompt(run.text, Instructions(remaining).value);
        Ok(Run(text.value, MarkAllApplied(run.directives), run.calls + [prompt]))
  }

  /** `apply_readability_patches`. When it returns, every directive is
      applied and otherwise unchanged, at most one full-document call was
      made and it was the last call, and there is at most one sentence
      rewrite per directive. */
  function ApplyReadabilityPatches(text: string, ds: seq<Directive>, llm: Llm, closest: Matcher): (r: Result<Run>)
    ensures r.Ok? ==> |r.value.directives| == |ds|
    ensures r.Ok? ==> forall k :: 0 <= k < |ds| ==> r.value.directives[k] == ds[k].(applied := true)
    ensures r.Ok? ==> forall k :: 0 <= k < |r.value.calls| - 1 ==> r.value.calls[k].SentencePrompt?
    ensures r.Ok? ==> |r.value.calls| <= |ds| + 1
  {
    var run :- ExactThenFuzzy(text, ds, llm, closest);
    DocumentFallback(run, llm)
  }

  // ------------------------------------------------------------ properties of the whole engine

  /** A service that never yields text. */
  ghost predicate Silent(llm: Llm) {
    forall p :: ReplyText(llm(p)).None?
  }

  /** With a silent service one fuzzy step changes neither the text nor the directive. */
  lemma SilentFuzzyStepChangesNothing(text: string, sentences: seq<string>, d: Directive, llm: Llm, closest: Matcher)
    requires Silent(llm)
    requires FuzzyStep(text, sentences, d, llm, closest).Ok?
    ensures FuzzyStep(text, sentences, d, llm, closest).value.text == text
    ensures FuzzyStep(text, sentences, d, llm, closest).value.directive == d
  {
    if FuzzyEligible(d) && d.original.JString? && closest(d.original.str, sentences).Some? {
      var m := closest(d.original.str, sentences).value;
      assert ReplyText(llm(SentencePrompt(m, RewriteInstruction(d.suggestion)))).None?;
    }
  }

  /** With a silent service the fuzzy pass changes no text and no flag. */
  lemma {:induction false} SilentFuzzyPassChangesNothing(text: string, sentences: seq<string>, ds: seq<Directive>, llm: Llm, closest: Matcher)
    requires Silent(llm)
    requires FuzzyPass(text, sentences, ds, llm, closest).Ok?
    ensures FuzzyPass(text, sentences, ds, llm, closest).value.0 == text
    ensures FuzzyPass(text, sentences, ds, llm, closest).value.1 == ds
    decreases |ds|
  {
    if ds != [] {
      SilentFuzzyStepChangesNothing(text, sentences, ds[0], llm, closest);
      var step := FuzzyStep(text, sentences, ds[0], llm, closest).value;
      var rest := FuzzyPass(text, sentences, ds[1..], llm, closest);
      assert FuzzyPass(text, sentences, ds, llm, closest)
        == Ok((rest.value.0, [ds[0]] + rest.value.1, step.prompts + rest.value.2));
      SilentFuzzyPassChangesNothing(text, sentences, ds[1..], llm, closest);
      assert [ds[0]] + ds[1..] == ds;
    }
  }

  /** With a silent service (unconfigured, failing, or blocked throughout)
      the engine returns the text the exact pass produced: nothing is lost,
      and if no original occurred, the document comes back unchanged. */
  lemma SilentServiceKeepsExactPassText(text: string, ds: seq<Directive>, llm: Llm, closest: Matcher)
    requires Silent(llm)
    requires ApplyReadabilityPatches(text, ds, llm, closest).Ok?
    ensures ApplyReadabilityPatches(text, ds, llm, closest).value.text == ExactPass(text, ResetFlags(ds)).value.0
  {
    var exact := ExactPass(text, ResetFlags(ds)).value;
    var snapshot := Sentences.TokenizeSentences(exact.0);
    SilentFuzzyPassChangesNothing(exact.0, snapshot, exact.1, llm, closest);
  }

  /** A directive whose original occurs once, at the start of the text, is
      settled by the exact pass: the engine returns the rewritten text and
      never calls the service. */
  lemma ExactMatchNeedsNoService(orig: string, sugg: string, tail: string, llm: Llm, closest: Matcher)
    requires orig != [] && sugg != [] && !Contains(tail, orig)
    ensures ApplyReadabilityPatches(orig + tail, [TextDirective(orig, sugg)], llm, closest)
      == Ok(Run(sugg + tail, [TextDirective(orig, sugg).(applied := true)], []))
  {
    var d := TextDirective(orig, sugg);
    var done := d.(applied := true);
    assert ResetFlags([d]) == [d];
    SingleExactMatch(orig, sugg, tail);
    var snapshot := Sentences.TokenizeSentences(sugg + tail);
    assert FuzzyStep(sugg + tail, snapshot, done, llm, closest) == Ok(Step(sugg + tail, done, []));
    assert [done][1..] == [];
    assert FuzzyPass(sugg + tail, snapshot, [], llm, closest) == Ok((sugg + tail, [], []));
    assert [done] + [] == [done];
    assert FuzzyPass(sugg + tail, snapshot, [done], llm, closest) == Ok((sugg + tail, [done], []));
    assert Unapplied([done]) == [];
  }
}
