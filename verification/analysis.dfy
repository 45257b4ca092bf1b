/** What the three analyzers share: the `{assessment, suggestions}` record
    they return and the steps of reading a reply that two or three of them
    take the same way. The prompt templates are opaque, so each analyzer's
    service is a function from the document to the reply it observes. */
module Analysis {
  import opened Wrappers
  import opened Text
  import opened Json
  import Gemini

  /** The assessment and suggestions of an analysis. Values taken from a
      decoded reply keep whatever JSON type they had. */
  datatype Findings = Findings(assessment: Json, suggestions: seq<Json>)

  /** The service of one analyzer: the reply observed for a document. */
  type Ask = string -> Gemini.Reply

  const EmptyDocument: string := "Document text is empty or contains only whitespace."
  const MissingAssessment: string := "LLM output missing 'assessment' key."
  const MissingSuggestions: string := "LLM output missing 'suggestions' key."
  const SuggestionsMarker: string := "Suggestions:"

  /** The findings of a document that is empty or all whitespace. */
  const EmptyFindings: Findings := Findings(JString(EmptyDocument), [])

  /** A message used as the assessment and as the only suggestion. */
  function Single(message: string): (r: Findings)
    ensures r.suggestions == [r.assessment] && r.assessment == JString(message)
  {
    Findings(JString(message), [JString(message)])
  }

  /** Strings as JSON string values. */
  function Strings(lines: seq<string>): (r: seq<Json>)
    ensures |r| == |lines|
    ensures forall k :: 0 <= k < |r| ==> r[k] == JString(lines[k])
  {
    seq(|lines|, k requires 0 <= k < |lines| => JString(lines[k]))
  }

  /** How the readers treat a decoded JSON object: `.get("assessment", ...)`
      gives the member or the missing-key message; `.get("suggestions", ...)`
      gives a list member as it is, the one-element list of the `str()` of any
      other member, and `suggestionsDefault` when the key is missing. */
  predicate ReadsObject(r: Findings, members: seq<(string, Json)>, suggestionsDefault: seq<Json>) {
    && r.assessment == Lookup(members, "assessment").GetOr(JString(MissingAssessment))
    && (Lookup(members, "suggestions").None? ==> r.suggestions == suggestionsDefault)
    && (Lookup(members, "suggestions").Some? && Lookup(members, "suggestions").value.JArray? ==>
          r.suggestions == Lookup(members, "suggestions").value.items)
    && (Lookup(members, "suggestions").Some? && !Lookup(members, "suggestions").value.JArray? ==>
          r.suggestions == [JString(PyStr(Lookup(members, "suggestions").value))])
  }

  /** An object carrying an assessment and a suggestion list, in any member order. */
  predicate CarriesBoth(members: seq<(string, Json)>, assessment: Json, suggestions: seq<Json>) {
    Lookup(members, "assessment") == Some(assessment) && Lookup(members, "suggestions") == Some(JArray(suggestions))
  }

  /** The findings of a decoded JSON object. */
  function ObjectFindings(members: seq<(string, Json)>, suggestionsDefault: seq<Json>): (r: Findings)
    ensures ReadsObject(r, members, suggestionsDefault)
  {
    var value := Lookup(members, "suggestions").GetOr(JArray(suggestionsDefault));
    Findings(Lookup(members, "assessment").GetOr(JString(MissingAssessment)),
             if value.JArray? then value.items else [JString(PyStr(value))])
  }

  /** Whatever the defaults, an object carrying both keys gives back exactly
      those two values, and so does the literal object with the two keys in
      that order. */
  lemma ObjectFindingsRoundTrip(assessment: Json, suggestions: seq<Json>, suggestionsDefault: seq<Json>)
    ensures forall members :: CarriesBoth(members, assessment, suggestions) ==>
      ObjectFindings(members, suggestionsDefault) == Findings(assessment, suggestions)
    ensures CarriesBoth([("assessment", assessment), ("suggestions", JArray(suggestions))], assessment, suggestions)
  {
    var members := [("assessment", assessment), ("suggestions", JArray(suggestions))];
    assert Lookup(members, "assessment") == Some(assessment);
    assert members[1..] == [("suggestions", JArray(suggestions))];
    assert Lookup(members, "suggestions") == Some(JArray(suggestions));
  }

  /** How the readers treat a reply that is not JSON: without `marker`, the
      stripped text with the `missing` message as the only suggestion;
      otherwise the stripped text before the first `marker` as assessment,
      and as suggestions the stripped non-blank lines after it (the rest is
      stripped as a whole first when `stripRest` is set). */
  predicate ReadsPlain(r: Findings, t: string, marker: string, stripRest: bool, missing: string) {
    match IndexOf(t, marker)
    case None => r == Findings(JString(Strip(t)), [JString(missing)])
    case Some(i) =>
      var after := t[i + |marker|..];
      && r.assessment == JString(Strip(t[..i]))
      && r.suggestions == Strings(NonBlankLines(if stripRest then Strip(after) else after))
  }

  /** The findings of a reply that is not JSON, split at the first `marker`. */
  function MarkedFindings(t: string, marker: string, stripRest: bool, missing: string): (r: Findings)
    requires marker != []
    ensures ReadsPlain(r, t, marker, stripRest, missing)
    ensures CleanLines(r.suggestions) || r.suggestions == [JString(missing)]
  {
    var parts := SplitOnce(t, marker);
    if parts.None? then Findings(JString(Strip(t)), [JString(missing)])
    else
      var rest := if stripRest then Strip(parts.value.1) else parts.value.1;
      StringsOfCleanLines(NonBlankLines(rest));
      Findings(JString(Strip(parts.value.0)), Strings(NonBlankLines(rest)))
  }

  /** A reply text carrying the marker once splits around it: the assessment
      is the stripped prefix, and the suggestions are the stripped non-blank
      lines of what follows the marker, each a non-empty string with no
      surrounding whitespace. */
  lemma MarkedFindingsSplitAtMarker(before: string, marker: string, after: string, stripRest: bool, missing: string)
    requires marker != []
    requires forall j: nat :: j < |before| ==> !OccursAt(before + marker + after, marker, j)
    ensures MarkedFindings(before + marker + after, marker, stripRest, missing).assessment == JString(Strip(before))
    ensures MarkedFindings(before + marker + after, marker, stripRest, missing).suggestions
      == Strings(NonBlankLines(if stripRest then Strip(after) else after))
    ensures CleanLines(MarkedFindings(before + marker + after, marker, stripRest, missing).suggestions)
  {
    var t := before + marker + after;
    SplitOnceAtFirst(before, marker, after);
    var lines := NonBlankLines(if stripRest then Strip(after) else after);
    assert MarkedFindings(t, marker, stripRest, missing) == Findings(JString(Strip(before)), Strings(lines));
    StringsOfCleanLines(lines);
  }

  /** Every suggestion is a string that is non-empty and has no whitespace at either end. */
  predicate CleanLines(js: seq<Json>) {
    forall k :: 0 <= k < |js| ==> js[k].JString? && Clean(js[k].str)
  }

  lemma StringsOfCleanLines(lines: seq<string>)
    requires AllClean(lines)
    ensures CleanLines(Strings(lines))
  {
  }

  /** The message of a response without parts, in the wording of the
      readability and completeness analyzers. */
  function BlockedMessage(block: Option<Gemini.BlockReason>): string {
    if block.None? then "LLM response was empty or potentially blocked by safety filters."
    else "LLM response blocked due to: " + block.value.name + " (" + block.value.message + ")"
  }

  /** The findings when reading the response's `.text` raised. */
  function ProcessingFailure(error: string): Findings {
    Findings(JString("LLM assessment failed during response processing: " + error),
             [JString("LLM assessment failed: " + error)])
  }

  const LlmFailure: string :=
    "LLM content generation failed. This could be due to an invalid/missing API key, "
    + "network issues, all model attempts (including fallback) failing, or the models being unavailable."
}
