/** The driver of `agent-2.py` (`main`): read the key, pull the readability
    suggestions out of the analysis report, normalise them into directives,
    run the patch engine, and fall back to the scraped text when the engine
    raises. Reading the two files and writing the result are left out: the
    scraped text and the decoded report are parameters, and the outcome is
    what would be written or why the process stops. */
module Revise {
  import opened Wrappers
  import opened Text
  import opened Json
  import opened Patch
  import opened Choice

  /** How `main` ends: it exits early for a missing key or an empty
      suggestion list, it dies on an uncaught exception while reading the
      report, or it writes the revised text. */
  datatype Outcome =
    | MissingKey
    | NoValidSuggestions
    | Crashed(error: string)
    | Revised(text: string)

  const SectionKey: string := "readability"
  const SuggestionsKey: string := "suggestions"

  /** `key in v` for a decoded value: key presence for a dict, element
      equality for a list, substring test for a string; any other type raises. */
  function MemberTest(key: string, v: Json): (r: Result<bool>)
    ensures r.Ok? <==> v.JObject? || v.JArray? || v.JString?
    ensures v.JObject? ==> r == Ok(Lookup(v.members, key).Some?)
    ensures v.JArray? ==> r == Ok(JString(key) in v.items)
    ensures v.JString? ==> r == Ok(Contains(v.str, key))
  {
    match v
    case JObject(members) => Ok(Lookup(members, key).Some?)
    case JArray(items) => Ok(JString(key) in items)
    case JString(s) => Ok(Contains(s, key))
    case _ => Err("argument of type '" + TypeName(v) + "' is not iterable")
  }

  /** `v[key]` once `key in v` held: the member of a dict; a list or a string
      cannot be indexed by a string. */
  function Subscript(v: Json, key: string): (r: Result<Json>)
    ensures r.Ok? <==> HasKey(v, key)
    ensures r.Ok? ==> Lookup(v.members, key) == Some(r.value)
  {
    if v.JObject? && Lookup(v.members, key).Some? then Ok(Lookup(v.members, key).value)
    else if v.JArray? then Err("list indices must be integers or slices, not str")
    else if v.JString? then Err("string indices must be integers")
    else Err("KeyError: '" + key + "'")
  }

  /** The items of the report's readability suggestion list: empty when the
      section is missing or its suggestions are not a list; an error when the
      report or the section has a type the lookups reject. */
  function RawSuggestions(data: Json): (r: Result<seq<Json>>)
    ensures !(data.JObject? || data.JArray? || data.JString?) ==> r.Err?
    ensures data.JObject? && !HasKey(data, SectionKey) ==> r == Ok([])
    ensures data.JObject? && HasKey(data, SectionKey) ==>
      var section := Lookup(data.members, SectionKey).value;
      && (r.Err? <==> !section.JObject?)
      && (section.JObject? && HasKey(section, SuggestionsKey) && Lookup(section.members, SuggestionsKey).value.JArray? ==>
            r == Ok(Lookup(section.members, SuggestionsKey).value.items))
      && (section.JObject? && !(HasKey(section, SuggestionsKey) && Lookup(section.members, SuggestionsKey).value.JArray?) ==>
            r == Ok([]))
    ensures (data.JArray? || data.JString?) ==> (r.Err? <==> MemberTest(SectionKey, data) == Ok(true))
    ensures (data.JArray? || data.JString?) && r.Ok? ==> r.value == []
  {
    var present :- MemberTest(SectionKey, data);
    if !present then Ok([])
    else
      var section :- Subscript(data, SectionKey);
      if !section.JObject? then Err(NoGetMessage(section))
      else
        var found := Lookup(section.members, SuggestionsKey);
        if found.Some? && found.value.JArray? then Ok(found.value.items) else Ok([])
  }

  /** A report item the driver keeps: a dict with both an original and a suggestion. */
  predicate IsCandidate(item: Json) {
    item.JObject? && HasKey(item, "original") && HasKey(item, "suggestion")
  }

  /** The directive built from a kept item: its original and suggestion as
      they are, its description or the empty string. */
  function ToDirective(item: Json): (d: Directive)
    requires IsCandidate(item)
    ensures d.kind == SectionKey && !d.applied
    ensures Lookup(item.members, "original") == Some(d.original)
    ensures Lookup(item.members, "suggestion") == Some(d.suggestion)
    ensures HasKey(item, "description") ==> Lookup(item.members, "description") == Some(d.description)
    ensures !HasKey(item, "description") ==> d.description == JString("")
  {
    Directive(SectionKey, Lookup(item.members, "description").GetOr(JString("")),
              Lookup(item.members, "original").value, Lookup(item.members, "suggestion").value, false)
  }

  /** The directive for one report item, when the driver keeps it. */
  function AsDirective(item: Json): (r: Option<Directive>)
    ensures r.Some? <==> IsCandidate(item)
  {
    if IsCandidate(item) then Some(ToDirective(item)) else None
  }

  /** The directives built from the candidates, in report order; every other
      item is skipped. */
  function Normalize(items: seq<Json>): (r: seq<Directive>)
    ensures |r| <= |items|
    ensures r == [] <==> forall k :: 0 <= k < |items| ==> !IsCandidate(items[k])
  {
    ChooseEmpty(items, 0, AsDirective);
    Choose(items, 0, AsDirective)
  }

  /** The positions of the items the driver keeps. */
  function Kept(items: seq<Json>): seq<nat> {
    Positions(items, 0, AsDirective)
  }

  /** Normalisation keeps exactly the candidates, converted, in report order:
      `Kept` lists every candidate position once, increasing, and the
      directives follow it. */
  lemma NormalizeKeepsCandidatesInOrder(items: seq<Json>)
    ensures forall i, j :: 0 <= i < j < |Kept(items)| ==> Kept(items)[i] < Kept(items)[j]
    ensures forall k :: 0 <= k < |items| ==> (k in Kept(items) <==> IsCandidate(items[k]))
    ensures |Normalize(items)| == |Kept(items)|
    ensures forall j :: 0 <= j < |Kept(items)| ==>
      IsCandidate(items[Kept(items)[j]]) && Normalize(items)[j] == ToDirective(items[Kept(items)[j]])
  {
    ChooseKeepsPicksInOrder(items, AsDirective);
    assert Follows(Normalize(items), Kept(items), items, AsDirective);
  }

  /** `main`, from the key onwards. */
  function ReviseDocument(key: Option<string>, scraped: string, data: Json, llm: Llm, closest: Matcher): (r: Outcome)
    ensures r == MissingKey <==> key.None? || key.value == []
    ensures r.Crashed? <==> key.Some? && key.value != [] && RawSuggestions(data).Err?
    ensures r == NoValidSuggestions <==>
      key.Some? && key.value != [] && RawSuggestions(data).Ok? && Normalize(RawSuggestions(data).value) == []
    ensures r.Revised? ==>
      var patched := ApplyReadabilityPatches(scraped, Normalize(RawSuggestions(data).value), llm, closest);
      r.text == (if patched.Ok? then patched.value.text else scraped)
  {
    if key.None? || key.value == [] then MissingKey
    else
      var raw := RawSuggestions(data);
      if raw.Err? then Crashed(raw.error)
      else
        var directives := Normalize(raw.value);
        if directives == [] then NoValidSuggestions
        else
          var patched := ApplyReadabilityPatches(scraped, directives, llm, closest);
          Revised(if patched.Ok? then patched.value.text else scraped)
  }
}
