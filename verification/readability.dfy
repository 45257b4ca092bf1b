/** The readability analyzer (`analyzer/readability_analyzer.py`): a
    reading-ease score computed locally, and an assessment with suggestions
    read from the service's reply. The score computation is a parameter:
    its rendered value, or the message of the exception it raised. */
module Readability {
  import opened Wrappers
  import opened Text
  import opened Json
  import opened Analysis
  import Gemini

  /** What the score computation produced. */
  datatype Score = Scored(rendered: string) | ScoreFailed(error: string)

  /** The analyzer's dict: the score when one was computed, and the findings. */
  datatype Assessment = Assessment(score: Option<string>, findings: Findings)

  const Undetermined: string := "Could not be determined."
  const ScoreFailureMark: string := "Flesch-Kincaid score calculation failed"
  const ScorePrefix: string := "Readability score: "
  const NoSuggestions: string := "Could not parse suggestions from non-JSON LLM output."
  const UnexpectedType: string := "LLM returned unexpected JSON type. Using raw output."
  const BareListAssessment: string := "LLM returned suggestions without a top-level object."

  /** The assessment written when the score computation raised. */
  function ScoreFailure(error: string): string {
    ScoreFailureMark + ": " + error + ". LLM assessment will proceed if possible."
  }

  /** The assessment when the service gave no response: the score is quoted
      when one exists and the current assessment is not a score failure. */
  function NoResponseAssessment(score: Option<string>, current: string): string {
    if score.Some? && !Contains(current, ScoreFailureMark) then ScorePrefix + score.value + ". " + LlmFailure
    else LlmFailure
  }

  /** The JSON reading of lines 65-108 as written. A bare list reaches
      `list.get`, which raises; the error is reported with the raw text and
      the list is dropped. */
  function InterpretReplyAsWritten(t: string, decode: Decoder): (r: Findings)
    ensures decode(t).None? ==> ReadsPlain(r, t, SuggestionsMarker, true, NoSuggestions)
    ensures decode(t).Some? && decode(t).value.JObject? ==> ReadsObject(r, decode(t).value.members, [])
    ensures decode(t).Some? && decode(t).value.JArray? ==>
      r == Findings(JString("Error processing LLM JSON: " + NoGetMessage(decode(t).value)), [JString("Raw output: " + t)])
    ensures decode(t).Some? && !decode(t).value.JObject? && !decode(t).value.JArray? ==>
      r == Findings(JString(UnexpectedType), [JString(t)])
  {
    var data := decode(t);
    if data.None? then MarkedFindings(t, SuggestionsMarker, true, NoSuggestions)
    else if data.value.JArray? then
      Findings(JString("Error processing LLM JSON: " + NoGetMessage(data.value)), [JString("Raw output: " + t)])
    else if data.value.JObject? then ObjectFindings(data.value.members, [])
    else Findings(JString(UnexpectedType), [JString(t)])
  }

  /** As written, a bare list of two or more suggestions (or none) never
      becomes the suggestion list, and the assessment is an error report
      rather than the one the list branch sets. */
  lemma BareListIsDroppedAsWritten(t: string, decode: Decoder, items: seq<Json>)
    requires decode(t) == Some(JArray(items)) && |items| != 1
    ensures InterpretReplyAsWritten(t, decode).suggestions != items
    ensures InterpretReplyAsWritten(t, decode).assessment != JString(BareListAssessment)
  {
    var r := InterpretReplyAsWritten(t, decode);
    assert |r.suggestions| == 1;
    assert |r.assessment.str| > |BareListAssessment|;
  }

  /** The JSON reading as the branch for lists evidently intends: a bare
      list is the suggestion list, with the fixed assessment. Every other
      reply is read as the code does. */
  function InterpretReply(t: string, decode: Decoder): (r: Findings)
    ensures decode(t).Some? && decode(t).value.JArray? ==>
      r == Findings(JString(BareListAssessment), decode(t).value.items)
    ensures (decode(t).None? || !decode(t).value.JArray?) ==> r == InterpretReplyAsWritten(t, decode)
  {
    var data := decode(t);
    if data.Some? && data.value.JArray? then Findings(JString(BareListAssessment), data.value.items)
    else InterpretReplyAsWritten(t, decode)
  }

  /** The reply text the analyzer reads: present when the document is not
      blank and the call returned a response with parts whose `.text` did
      not raise; stripped, then unfenced. */
  function ReplyText(doc: string, ask: Ask): (r: Option<string>)
    ensures r.Some? <==>
      && !IsBlank(doc) && ask(doc).Returned? && ask(doc).response.Some?
      && ask(doc).response.value.parts != [] && ask(doc).response.value.text.Ok?
    ensures r.Some? ==> r.value == StripFence(Strip(ask(doc).response.value.text.value))
  {
    if IsBlank(doc) then None
    else
      var reply := ask(doc);
      if reply.Raised? || reply.response.None? then None
      else
        var response := reply.response.value;
        if response.parts == [] || response.text.Err? then None
        else Some(StripFence(Strip(response.text.value)))
  }

  /** `analyze_readability` around a reader of the reply text. */
  function AnalyzeWith(doc: string, score: Score, ask: Ask, decode: Decoder, read: (string, Decoder) -> Findings): Assessment {
    if IsBlank(doc) then Assessment(None, EmptyFindings)
    else
      var value := if score.Scored? then Some(score.rendered) else None;
      var current := if score.Scored? then Undetermined else ScoreFailure(score.error);
      var reply := ask(doc);
      if reply.Raised? || reply.response.None? then
        Assessment(value, Findings(JString(NoResponseAssessment(value, current)), [JString(LlmFailure)]))
      else
        var response := reply.response.value;
        if response.parts == [] then Assessment(value, Single(BlockedMessage(response.blockReason)))
        else if response.text.Err? then Assessment(value, ProcessingFailure(response.text.error))
        else Assessment(value, read(StripFence(Strip(response.text.value)), decode))
  }

  /** `analyze_readability` as written. A blank document gets no score and
      no service call; a call that raises is treated like a missing
      response; a response without parts reports its block reason; a
      `.text` that raises is a processing failure; a usable reply is read
      by `InterpretReplyAsWritten`. */
  function AnalyzeReadability(doc: string, score: Score, ask: Ask, decode: Decoder): (r: Assessment)
    ensures IsBlank(doc) ==> r == Assessment(None, EmptyFindings)
    ensures !IsBlank(doc) ==> (r.score.Some? <==> score.Scored?)
    ensures !IsBlank(doc) && score.Scored? ==> r.score == Some(score.rendered)
    ensures !IsBlank(doc) && (ask(doc).Raised? || ask(doc).response.None?) ==>
      && r.findings.suggestions == [JString(LlmFailure)]
      && r.findings.assessment == JString(NoResponseAssessment(r.score, if score.Scored? then Undetermined else ScoreFailure(score.error)))
    ensures !IsBlank(doc) && ask(doc).Returned? && ask(doc).response.Some? ==>
      var response := ask(doc).response.value;
      && (response.parts == [] ==> r.findings == Single(BlockedMessage(response.blockReason)))
      && (response.parts != [] && response.text.Err? ==> r.findings == ProcessingFailure(response.text.error))
    ensures ReplyText(doc, ask).Some? ==> r.findings == InterpretReplyAsWritten(ReplyText(doc, ask).value, decode)
  {
    AnalyzeWith(doc, score, ask, decode, InterpretReplyAsWritten)
  }

  /** The usable reply text decodes to a bare list. */
  predicate BareListReply(doc: string, ask: Ask, decode: Decoder) {
    ReplyText(doc, ask).Some? && decode(ReplyText(doc, ask).value).Some? && decode(ReplyText(doc, ask).value).value.JArray?
  }

  /** `analyze_readability` with the list branch read as intended: the same
      as the code as written, except that a usable reply decoding to a bare
      list gives that list as the suggestions, with the fixed assessment. */
  function AnalyzeReadabilityIntended(doc: string, score: Score, ask: Ask, decode: Decoder): (r: Assessment)
    ensures !BareListReply(doc, ask, decode) ==> r == AnalyzeReadability(doc, score, ask, decode)
    ensures BareListReply(doc, ask, decode) ==>
      && r.score == AnalyzeReadability(doc, score, ask, decode).score
      && r.findings == Findings(JString(BareListAssessment), decode(ReplyText(doc, ask).value).value.items)
  {
    AnalyzeWith(doc, score, ask, decode, InterpretReply)
  }

  /** Without a response, the assessment quotes the score exactly when the
      score was computed: the failure text always carries the mark the check
      looks for, and the undetermined text never does. */
  lemma {:induction false} ScoreQuotedIffScored(doc: string, score: Score, ask: Ask, decode: Decoder)
    requires !IsBlank(doc) && (ask(doc).Raised? || ask(doc).response.None?)
    ensures score.Scored? ==>
      AnalyzeReadability(doc, score, ask, decode).findings.assessment
        == JString(ScorePrefix + score.rendered + ". " + LlmFailure)
    ensures score.ScoreFailed? ==> AnalyzeReadability(doc, score, ask, decode).findings.assessment == JString(LlmFailure)
  {
    if score.Scored? {
      assert !Contains(Undetermined, ScoreFailureMark) by {
        assert |Undetermined| < |ScoreFailureMark|;
      }
    } else {
      var s := ScoreFailure(score.error);
      assert OccursAt(s, ScoreFailureMark, 0) by {
        assert s[0..|ScoreFailureMark|] == ScoreFailureMark;
      }
    }
  }

  /** A JSON object reply carrying both keys, in any order, gives exactly
      its assessment and suggestion list, and the score is kept beside them. */
  lemma ObjectReplyRoundTrip(doc: string, score: Score, ask: Ask, decode: Decoder, members: seq<(string, Json)>, assessment: Json, suggestions: seq<Json>)
    requires ReplyText(doc, ask).Some?
    requires decode(ReplyText(doc, ask).value) == Some(JObject(members)) && CarriesBoth(members, assessment, suggestions)
    ensures AnalyzeReadability(doc, score, ask, decode).findings == Findings(assessment, suggestions)
    ensures AnalyzeReadability(doc, score, ask, decode).score.Some? <==> score.Scored?
  {
    ObjectFindingsRoundTrip(assessment, suggestions, []);
  }

  /** A reply that is not JSON and names "Suggestions:" once splits around
      it: the stripped text before it, and the stripped non-blank lines of
      the rest. */
  lemma PlainReplySplitsAtMarker(t: string, decode: Decoder, before: string, after: string)
    requires t == before + SuggestionsMarker + after && decode(t).None?
    requires forall j: nat :: j < |before| ==> !OccursAt(before + SuggestionsMarker + after, SuggestionsMarker, j)
    ensures InterpretReplyAsWritten(t, decode).assessment == JString(Strip(before))
    ensures InterpretReplyAsWritten(t, decode).suggestions == Strings(NonBlankLines(Strip(after)))
    ensures CleanLines(InterpretReplyAsWritten(t, decode).suggestions)
  {
    MarkedFindingsSplitAtMarker(before, SuggestionsMarker, after, true, NoSuggestions);
  }
}
