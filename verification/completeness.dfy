/** The completeness analyzer (`analyzer/completeness_analyzer.py`). Unlike
    the other two analyzers it does not catch an exception raised by the
    generation call, so its result is a `Result` whose error is that
    exception's message. */
module Completeness {
  import opened Wrappers
  import opened Text
  import opened Json
  import opened Analysis
  import Gemini

  const NoSuggestions: string := "Could not parse suggestions."

  /** The JSON reading of lines 27-44: an object gives its two keys, a value
      of any other type makes `.get` raise, and text that does not decode is
      split at the first "Suggestions:". */
  function InterpretReply(t: string, decode: Decoder): (r: Findings)
    ensures decode(t).None? ==> ReadsPlain(r, t, SuggestionsMarker, true, NoSuggestions)
    ensures decode(t).Some? && decode(t).value.JObject? ==>
      ReadsObject(r, decode(t).value.members, [JString(MissingSuggestions)])
    ensures decode(t).Some? && !decode(t).value.JObject? ==>
      && r.assessment == JString("Error processing LLM JSON: " + NoGetMessage(decode(t).value))
      && r.suggestions == [JString("Raw output: " + t)]
  {
    var data := decode(t);
    if data.None? then MarkedFindings(t, SuggestionsMarker, true, NoSuggestions)
    else if data.value.JObject? then ObjectFindings(data.value.members, [JString(MissingSuggestions)])
    else Findings(JString("Error processing LLM JSON: " + NoGetMessage(data.value)), [JString("Raw output: " + t)])
  }

  /** `analyze_completeness`: a blank document is answered without the
      service; a raising call propagates; a missing response, a response
      without parts and a raising `.text` each give fixed findings; a usable
      reply is stripped, unfenced and read. */
  function AnalyzeCompleteness(doc: string, ask: Ask, decode: Decoder): (r: Result<Findings>)
    ensures r.Err? <==> !IsBlank(doc) && ask(doc).Raised?
    ensures r.Err? ==> r.error == ask(doc).error
    ensures IsBlank(doc) ==> r == Ok(EmptyFindings)
    ensures !IsBlank(doc) && ask(doc) == Gemini.Returned(None) ==> r == Ok(Single(LlmFailure))
    ensures !IsBlank(doc) && ask(doc).Returned? && ask(doc).response.Some? ==>
      var response := ask(doc).response.value;
      && (response.parts == [] ==> r == Ok(Single(BlockedMessage(response.blockReason))))
      && (response.parts != [] && response.text.Err? ==> r == Ok(ProcessingFailure(response.text.error)))
      && (response.parts != [] && response.text.Ok? ==>
            r == Ok(InterpretReply(StripFence(Strip(response.text.value)), decode)))
  {
    if IsBlank(doc) then Ok(EmptyFindings)
    else
      var reply := ask(doc);
      if reply.Raised? then Err(reply.error)
      else if reply.response.None? then Ok(Single(LlmFailure))
      else
        var response := reply.response.value;
        if response.parts == [] then Ok(Single(BlockedMessage(response.blockReason)))
        else if response.text.Err? then Ok(ProcessingFailure(response.text.error))
        else Ok(InterpretReply(StripFence(Strip(response.text.value)), decode))
  }

  /** A reply that is not JSON and names "Suggestions:" once splits around
      it: the stripped text before it, and the stripped non-blank lines of
      the rest. */
  lemma PlainReplySplitsAtMarker(t: string, decode: Decoder, before: string, after: string)
    requires t == before + SuggestionsMarker + after && decode(t).None?
    requires forall j: nat :: j < |before| ==> !OccursAt(before + SuggestionsMarker + after, SuggestionsMarker, j)
    ensures InterpretReply(t, decode).assessment == JString(Strip(before))
    ensures InterpretReply(t, decode).suggestions == Strings(NonBlankLines(Strip(after)))
    ensures CleanLines(InterpretReply(t, decode).suggestions)
  {
    MarkedFindingsSplitAtMarker(before, SuggestionsMarker, after, true, NoSuggestions);
  }

  /** A JSON object reply carrying both keys, in any order, gives exactly
      its assessment and suggestion list. */
  lemma ObjectReplyRoundTrip(doc: string, ask: Ask, decode: Decoder, members: seq<(string, Json)>, assessment: Json, suggestions: seq<Json>)
    requires !IsBlank(doc) && ask(doc).Returned? && ask(doc).response.Some?
    requires ask(doc).response.value.parts != [] && ask(doc).response.value.text.Ok?
    requires decode(StripFence(Strip(ask(doc).response.value.text.value))) == Some(JObject(members))
    requires CarriesBoth(members, assessment, suggestions)
    ensures AnalyzeCompleteness(doc, ask, decode) == Ok(Findings(assessment, suggestions))
  {
    ObjectFindingsRoundTrip(assessment, suggestions, [JString(MissingSuggestions)]);
  }
}
