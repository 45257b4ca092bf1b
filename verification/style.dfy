/** The style-guideline analyzer (`analyzer/style_analyzer.py`): how a reply
    becomes an assessment and a list of suggestions. */
module Style {
  import opened Wrappers
  import opened Text
  import opened Json
  import opened Analysis
  import Gemini

  const ChangesMarker: string := "Specific changes suggested:"
  const NoChanges: string := "Could not parse specific changes."
  const NoneReturned: string := "LLM generation failed or returned None"

  /** `parse_llm_output`: remove the JSON fence, then read the text as a JSON
      object, or, when it does not decode, split it at the first
      "Specific changes suggested:". Valid JSON that is not an object makes
      `.get` raise, which is reported with the raw text. */
  function ParseLlmOutput(raw: string, decode: Decoder): (r: Findings)
    ensures decode(StripFence(raw)).Some? && decode(StripFence(raw)).value.JObject? ==>
      ReadsObject(r, decode(StripFence(raw)).value.members, [JString(MissingSuggestions)])
    ensures decode(StripFence(raw)).Some? && !decode(StripFence(raw)).value.JObject? ==>
      && r.assessment == JString("Error during LLM parsing: " + NoGetMessage(decode(StripFence(raw)).value))
      && r.suggestions == [JString("Raw output: " + StripFence(raw))]
    ensures decode(StripFence(raw)).None? ==> ReadsPlain(r, StripFence(raw), ChangesMarker, false, NoChanges)
  {
    var t := StripFence(raw);
    var data := decode(t);
    if data.None? then MarkedFindings(t, ChangesMarker, false, NoChanges)
    else if data.value.JObject? then ObjectFindings(data.value.members, [JString(MissingSuggestions)])
    else Findings(JString("Error during LLM parsing: " + NoGetMessage(data.value)), [JString("Raw output: " + t)])
  }

  /** A JSON object reply carrying both keys, in any order, gives exactly
      its assessment and its suggestion list. */
  lemma ObjectReplyRoundTrip(raw: string, decode: Decoder, members: seq<(string, Json)>, assessment: Json, suggestions: seq<Json>)
    requires decode(StripFence(raw)) == Some(JObject(members)) && CarriesBoth(members, assessment, suggestions)
    ensures ParseLlmOutput(raw, decode) == Findings(assessment, suggestions)
  {
    ObjectFindingsRoundTrip(assessment, suggestions, [JString(MissingSuggestions)]);
  }

  /** A reply that is not JSON and names the marker once splits around it:
      the assessment is the stripped text before it and the suggestions are
      the stripped non-blank lines after it, each a non-empty line without
      surrounding whitespace. */
  lemma PlainReplySplitsAtMarker(raw: string, decode: Decoder, before: string, after: string)
    requires StripFence(raw) == before + ChangesMarker + after
    requires decode(StripFence(raw)).None?
    requires forall j: nat :: j < |before| ==> !OccursAt(before + ChangesMarker + after, ChangesMarker, j)
    ensures ParseLlmOutput(raw, decode).assessment == JString(Strip(before))
    ensures ParseLlmOutput(raw, decode).suggestions == Strings(NonBlankLines(after))
    ensures CleanLines(ParseLlmOutput(raw, decode).suggestions)
  {
    MarkedFindingsSplitAtMarker(before, ChangesMarker, after, false, NoChanges);
  }

  /** The message when the response has no parts. */
  function StyleBlockedMessage(block: Option<Gemini.BlockReason>): string {
    if block.None? then "LLM response was empty or blocked."
    else "LLM response blocked: " + block.value.name + " (" + block.value.message + ")"
  }

  /** `analyze_style`: a blank document is answered without the service;
      otherwise a missing or raising reply, a reply without parts and a
      raising `.text` each give one message as both assessment and only
      suggestion, and a usable reply is parsed. */
  function AnalyzeStyle(doc: string, ask: Ask, decode: Decoder): (r: Findings)
    ensures IsBlank(doc) ==> r == EmptyFindings
    ensures !IsBlank(doc) && ask(doc).Raised? ==> r == Single("LLM assessment failed: " + ask(doc).error)
    ensures !IsBlank(doc) && ask(doc) == Gemini.Returned(None) ==> r == Single("LLM assessment failed: " + NoneReturned)
    ensures !IsBlank(doc) && ask(doc).Returned? && ask(doc).response.Some? ==>
      var response := ask(doc).response.value;
      && (response.parts == [] ==> r == Single(StyleBlockedMessage(response.blockReason)))
      && (response.parts != [] && response.text.Err? ==> r == Single("LLM assessment failed: " + response.text.error))
      && (response.parts != [] && response.text.Ok? ==> r == ParseLlmOutput(Strip(response.text.value), decode))
  {
    if IsBlank(doc) then EmptyFindings
    else
      var reply := ask(doc);
      if reply.Raised? then Single("LLM assessment failed: " + reply.error)
      else if reply.response.None? then Single("LLM assessment failed: " + NoneReturned)
      else
        var response := reply.response.value;
        if response.parts == [] then Single(StyleBlockedMessage(response.blockReason))
        else if response.text.Err? then Single("LLM assessment failed: " + response.text.error)
        else ParseLlmOutput(Strip(response.text.value), decode)
  }
}
