/** The analysis runner (`analyzer/analysis_runner.py`): run the four
    analyzers one after another on the same text, keep each one's result
    under its key, and record the failure of each one that raised, without
    stopping the others. */
module Runner {
  import opened Wrappers
  import opened Text
  import opened Json
  import Analysis
  import Readability
  import Completeness
  import Style

  /** The report dict; a section is `None` when its analyzer raised. */
  datatype Report<T> = Report(
    urlAnalyzed: string,
    readability: Option<T>,
    structureAndFlow: Option<T>,
    completenessOfInformation: Option<T>,
    styleGuidelines: Option<T>,
    errors: seq<string>)

  /** An analyzer: its result for a document, or the message of what it raised. */
  type Analyzer<T> = string -> Result<T>

  const AnalysisFailed: string := " analysis failed: "
  const ReadabilityFailed: string := "Readability" + AnalysisFailed
  const StructureFailed: string := "Structure and flow" + AnalysisFailed
  const CompletenessFailed: string := "Completeness of information" + AnalysisFailed
  const StyleFailed: string := "Style guidelines" + AnalysisFailed

  /** The failure prefixes, in running order. */
  const Prefixes: seq<string> := [ReadabilityFailed, StructureFailed, CompletenessFailed, StyleFailed]

  /** The position of the first prefix from `from` on that starts `e`. */
  function RankFrom(e: string, from: nat): (r: Option<nat>)
    requires from <= |Prefixes|
    ensures r.Some? ==> from <= r.value < |Prefixes| && StartsWith(e, Prefixes[r.value])
    decreases |Prefixes| - from
  {
    if from == |Prefixes| then None
    else if StartsWith(e, Prefixes[from]) then Some(from)
    else RankFrom(e, from + 1)
  }

  /** The position, in running order, of the analyzer an error message names. */
  function Rank(e: string): Option<nat> {
    RankFrom(e, 0)
  }

  /** A text that differs from `p` at a position they share does not start with `p`. */
  lemma DiffersAt(s: string, p: string, i: nat)
    requires i < |p| && i < |s| && s[i] != p[i]
    ensures !StartsWith(s, p)
  {
    if |p| <= |s| {
      assert s[..|p|][i] == s[i];
    }
  }

  /** Each failure message names its own analyzer and no other. */
  lemma RankOfMessages(error: string)
    ensures Rank(ReadabilityFailed + error) == Some(0)
    ensures Rank(StructureFailed + error) == Some(1)
    ensures Rank(CompletenessFailed + error) == Some(2)
    ensures Rank(StyleFailed + error) == Some(3)
  {
    assert ReadabilityFailed[0] == 'R' && StructureFailed[0] == 'S' && CompletenessFailed[0] == 'C';
    assert StructureFailed[2] == 'r' && StyleFailed[2] == 'y';
    assert Prefixes[0] == ReadabilityFailed && Prefixes[1] == StructureFailed;
    assert Prefixes[2] == CompletenessFailed && Prefixes[3] == StyleFailed;
    var e0, e1, e2, e3 := ReadabilityFailed + error, StructureFailed + error, CompletenessFailed + error, StyleFailed + error;
    assert e0[..|ReadabilityFailed|] == ReadabilityFailed;
    assert RankFrom(e0, 0) == Some(0);
    assert e1[..|StructureFailed|] == StructureFailed;
    DiffersAt(e1, ReadabilityFailed, 0);
    assert RankFrom(e1, 1) == Some(1);
    assert e2[..|CompletenessFailed|] == CompletenessFailed;
    DiffersAt(e2, ReadabilityFailed, 0);
    DiffersAt(e2, StructureFailed, 0);
    assert RankFrom(e2, 2) == Some(2);
    assert RankFrom(e2, 1) == Some(2);
    assert e3[..|StyleFailed|] == StyleFailed;
    DiffersAt(e3, ReadabilityFailed, 0);
    DiffersAt(e3, StructureFailed, 2);
    DiffersAt(e3, CompletenessFailed, 0);
    assert RankFrom(e3, 3) == Some(3);
    assert RankFrom(e3, 2) == Some(3);
    assert RankFrom(e3, 1) == Some(3);
  }

  /** Every message names an analyzer from `lo` up to, but not including, `hi`. */
  predicate RanksWithin(errors: seq<string>, lo: nat, hi: nat) {
    forall k :: 0 <= k < |errors| ==> Rank(errors[k]).Some? && lo <= Rank(errors[k]).value < hi
  }

  /** Later messages name later analyzers. */
  predicate Ascending(errors: seq<string>) {
    forall i, j :: 0 <= i < j < |errors| ==> Rank(errors[i]).Some? && Rank(errors[j]).Some? && Rank(errors[i]).value < Rank(errors[j]).value
  }

  /** Some message names analyzer `n`. */
  predicate Names(errors: seq<string>, n: nat) {
    exists k :: 0 <= k < |errors| && Rank(errors[k]) == Some(n)
  }

  lemma AppendAscending(x: seq<string>, y: seq<string>, lo: nat, mid: nat, hi: nat)
    requires lo <= mid <= hi
    requires Ascending(x) && RanksWithin(x, lo, mid)
    requires Ascending(y) && RanksWithin(y, mid, hi)
    ensures Ascending(x + y) && RanksWithin(x + y, lo, hi)
  {
    var z := x + y;
    forall i, j | 0 <= i < j < |z|
      ensures Rank(z[i]).Some? && Rank(z[j]).Some? && Rank(z[i]).value < Rank(z[j]).value
    {
      if j < |x| {
        assert z[i] == x[i] && z[j] == x[j];
      } else if i < |x| {
        assert z[i] == x[i] && z[j] == y[j - |x|];
      } else {
        assert z[i] == y[i - |x|] && z[j] == y[j - |x|];
      }
    }
    forall k | 0 <= k < |z|
      ensures Rank(z[k]).Some? && lo <= Rank(z[k]).value < hi
    {
      if k < |x| {
        assert z[k] == x[k];
      } else {
        assert z[k] == y[k - |x|];
      }
    }
  }

  lemma AppendNames(x: seq<string>, y: seq<string>, n: nat)
    ensures Names(x + y, n) <==> Names(x, n) || Names(y, n)
  {
    var z := x + y;
    if Names(z, n) {
      var k :| 0 <= k < |z| && Rank(z[k]) == Some(n);
      if k < |x| {
        assert x[k] == z[k];
      } else {
        assert y[k - |x|] == z[k];
      }
    }
    if Names(x, n) {
      var k :| 0 <= k < |x| && Rank(x[k]) == Some(n);
      assert z[k] == x[k];
    }
    if Names(y, n) {
      var k :| 0 <= k < |y| && Rank(y[k]) == Some(n);
      assert z[|x| + k] == y[k];
    }
  }

  /** The error recorded for analyzer `n` names it and only it. */
  lemma FailureNamesItsAnalyzer<T>(n: nat, prefix: string, outcome: Result<T>)
    requires outcome.Err? ==> Rank(prefix + outcome.error) == Some(n)
    ensures Ascending(Failure(prefix, outcome)) && RanksWithin(Failure(prefix, outcome), n, n + 1)
    ensures forall m: nat :: Names(Failure(prefix, outcome), m) <==> outcome.Err? && m == n
  {
    if outcome.Err? {
      assert Failure(prefix, outcome)[0] == prefix + outcome.error;
    }
  }

  lemma NamesOfFour(a: seq<string>, b: seq<string>, c: seq<string>, d: seq<string>, n: nat)
    ensures Names(a + b + c + d, n) <==> Names(a, n) || Names(b, n) || Names(c, n) || Names(d, n)
  {
    AppendNames(a, b, n);
    AppendNames(a + b, c, n);
    AppendNames(a + b + c, d, n);
  }

  /** The error each analyzer's outcome leaves names that analyzer. */
  lemma FailuresNameTheirAnalyzers<T>(o1: Result<T>, o2: Result<T>, o3: Result<T>, o4: Result<T>)
    ensures Ascending(Failure(ReadabilityFailed, o1)) && RanksWithin(Failure(ReadabilityFailed, o1), 0, 1)
    ensures Ascending(Failure(StructureFailed, o2)) && RanksWithin(Failure(StructureFailed, o2), 1, 2)
    ensures Ascending(Failure(CompletenessFailed, o3)) && RanksWithin(Failure(CompletenessFailed, o3), 2, 3)
    ensures Ascending(Failure(StyleFailed, o4)) && RanksWithin(Failure(StyleFailed, o4), 3, 4)
    ensures forall m: nat :: Names(Failure(ReadabilityFailed, o1), m) <==> o1.Err? && m == 0
    ensures forall m: nat :: Names(Failure(StructureFailed, o2), m) <==> o2.Err? && m == 1
    ensures forall m: nat :: Names(Failure(CompletenessFailed, o3), m) <==> o3.Err? && m == 2
    ensures forall m: nat :: Names(Failure(StyleFailed, o4), m) <==> o4.Err? && m == 3
  {
    if o1.Err? { RankOfMessages(o1.error); }
    if o2.Err? { RankOfMessages(o2.error); }
    if o3.Err? { RankOfMessages(o3.error); }
    if o4.Err? { RankOfMessages(o4.error); }
    FailureNamesItsAnalyzer(0, ReadabilityFailed, o1);
    FailureNamesItsAnalyzer(1, StructureFailed, o2);
    FailureNamesItsAnalyzer(2, CompletenessFailed, o3);
    FailureNamesItsAnalyzer(3, StyleFailed, o4);
  }

  /** The section kept for one analyzer's outcome. */
  function SectionOf<T>(outcome: Result<T>): Option<T> {
    if outcome.Ok? then Some(outcome.value) else None
  }

  /** The error recorded for one analyzer's outcome. */
  function Failure<T>(prefix: string, outcome: Result<T>): seq<string> {
    if outcome.Err? then [prefix + outcome.error] else []
  }

  /** The number of failed outcomes. */
  function Failures<T>(outcomes: seq<Result<T>>): nat
    decreases |outcomes|
  {
    if outcomes == [] then 0
    else (if outcomes[0].Err? then 1 else 0) + Failures(outcomes[1..])
  }

  lemma FailuresOfFour<T>(o1: Result<T>, o2: Result<T>, o3: Result<T>, o4: Result<T>)
    ensures Failures([o1, o2, o3, o4]) == |Failure("", o1)| + |Failure("", o2)| + |Failure("", o3)| + |Failure("", o4)|
  {
    assert Failures([o4]) == |Failure("", o4)| by {
      assert [o4][1..] == [];
    }
    assert Failures([o3, o4]) == |Failure("", o3)| + |Failure("", o4)| by {
      assert [o3, o4][1..] == [o4];
    }
    assert Failures([o2, o3, o4]) == |Failure("", o2)| + |Failure("", o3)| + |Failure("", o4)| by {
      assert [o2, o3, o4][1..] == [o3, o4];
    }
    assert [o1, o2, o3, o4][1..] == [o2, o3, o4];
  }

  /** The error list left by the four outcomes, in running order. */
  function Errors<T>(o1: Result<T>, o2: Result<T>, o3: Result<T>, o4: Result<T>): seq<string> {
    Failure(ReadabilityFailed, o1) + Failure(StructureFailed, o2)
    + Failure(CompletenessFailed, o3) + Failure(StyleFailed, o4)
  }

  /** `run_full_analysis`: every analyzer runs, whatever the others did. A
      section holds its analyzer's result and is missing exactly when that
      analyzer raised; the errors are one message per failure, each carrying
      the analyzer's message, in running order, and a section is missing
      exactly when an error names its analyzer. */
  function RunFullAnalysis<T>(
    url: string, doc: string,
    readability: Analyzer<T>, structure: Analyzer<T>, completeness: Analyzer<T>, style: Analyzer<T>): (r: Report<T>)
    ensures r.urlAnalyzed == url
    ensures r.readability.Some? <==> readability(doc).Ok?
    ensures r.readability.Some? ==> r.readability.value == readability(doc).value
    ensures r.structureAndFlow.Some? <==> structure(doc).Ok?
    ensures r.structureAndFlow.Some? ==> r.structureAndFlow.value == structure(doc).value
    ensures r.completenessOfInformation.Some? <==> completeness(doc).Ok?
    ensures r.completenessOfInformation.Some? ==> r.completenessOfInformation.value == completeness(doc).value
    ensures r.styleGuidelines.Some? <==> style(doc).Ok?
    ensures r.styleGuidelines.Some? ==> r.styleGuidelines.value == style(doc).value
    ensures |r.errors| == Failures([readability(doc), structure(doc), completeness(doc), style(doc)])
    ensures readability(doc).Err? ==> ReadabilityFailed + readability(doc).error in r.errors
    ensures structure(doc).Err? ==> StructureFailed + structure(doc).error in r.errors
    ensures completeness(doc).Err? ==> CompletenessFailed + completeness(doc).error in r.errors
    ensures style(doc).Err? ==> StyleFailed + style(doc).error in r.errors
    ensures Ascending(r.errors)
    ensures r.readability.None? <==> Names(r.errors, 0)
    ensures r.structureAndFlow.None? <==> Names(r.errors, 1)
    ensures r.completenessOfInformation.None? <==> Names(r.errors, 2)
    ensures r.styleGuidelines.None? <==> Names(r.errors, 3)
  {
    var o1, o2, o3, o4 := readability(doc), structure(doc), completeness(doc), style(doc);
    ErrorsCarryMessages(o1, o2, o3, o4);
    ErrorsFollowRunningOrder(o1, o2, o3, o4);
    MissingSectionsAreNamed(o1, o2, o3, o4);
    Report(url, SectionOf(o1), SectionOf(o2), SectionOf(o3), SectionOf(o4), Errors(o1, o2, o3, o4))
  }

  /** The error list has one message per analyzer that raised, each
      carrying that analyzer's message. */
  lemma ErrorsCarryMessages<T>(o1: Result<T>, o2: Result<T>, o3: Result<T>, o4: Result<T>)
    ensures |Errors(o1, o2, o3, o4)| == Failures([o1, o2, o3, o4])
    ensures o1.Err? ==> ReadabilityFailed + o1.error in Errors(o1, o2, o3, o4)
    ensures o2.Err? ==> StructureFailed + o2.error in Errors(o1, o2, o3, o4)
    ensures o3.Err? ==> CompletenessFailed + o3.error in Errors(o1, o2, o3, o4)
    ensures o4.Err? ==> StyleFailed + o4.error in Errors(o1, o2, o3, o4)
  {
    FailuresOfFour(o1, o2, o3, o4);
  }

  /** The messages follow the running order: a later message names a later analyzer. */
  lemma {:induction false} ErrorsFollowRunningOrder<T>(o1: Result<T>, o2: Result<T>, o3: Result<T>, o4: Result<T>)
    ensures Ascending(Errors(o1, o2, o3, o4))
  {
    var a := Failure(ReadabilityFailed, o1);
    var b := Failure(StructureFailed, o2);
    var c := Failure(CompletenessFailed, o3);
    var d := Failure(StyleFailed, o4);
    FailuresNameTheirAnalyzers(o1, o2, o3, o4);
    AppendAscending(a, b, 0, 1, 2);
    AppendAscending(a + b, c, 0, 2, 3);
    AppendAscending(a + b + c, d, 0, 3, 4);
  }

  /** A section is missing exactly when an error names its analyzer. */
  lemma {:induction false} MissingSectionsAreNamed<T>(o1: Result<T>, o2: Result<T>, o3: Result<T>, o4: Result<T>)
    ensures SectionOf(o1).None? <==> Names(Errors(o1, o2, o3, o4), 0)
    ensures SectionOf(o2).None? <==> Names(Errors(o1, o2, o3, o4), 1)
    ensures SectionOf(o3).None? <==> Names(Errors(o1, o2, o3, o4), 2)
    ensures SectionOf(o4).None? <==> Names(Errors(o1, o2, o3, o4), 3)
  {
    var a := Failure(ReadabilityFailed, o1);
    var b := Failure(StructureFailed, o2);
    var c := Failure(CompletenessFailed, o3);
    var d := Failure(StyleFailed, o4);
    FailuresNameTheirAnalyzers(o1, o2, o3, o4);
    NamesOfFour(a, b, c, d, 0);
    NamesOfFour(a, b, c, d, 1);
    NamesOfFour(a, b, c, d, 2);
    NamesOfFour(a, b, c, d, 3);
  }

  /** A section of the report as the analyzers of this model produce it;
      the structure analyzer is not part of this model, so its dict is an
      opaque JSON value. */
  datatype Section =
    | ReadabilitySection(readability: Readability.Assessment)
    | FindingsSection(findings: Analysis.Findings)
    | StructureSection(structure: Json)

  /** The services of the three analyzers in this model, each with its own prompt. */
  datatype Services = Services(readability: Analysis.Ask, completeness: Analysis.Ask, style: Analysis.Ask)

  /** `run_full_analysis` over the analyzers of this model. */
  function FullAnalysis(
    url: string, doc: string, score: Readability.Score, services: Services, decode: Decoder,
    structure: Analyzer<Section>): Report<Section>
  {
    RunFullAnalysis(url, doc,
      d => Ok(ReadabilitySection(Readability.AnalyzeReadability(d, score, services.readability, decode))),
      structure,
      d => var c := Completeness.AnalyzeCompleteness(d, services.completeness, decode);
           if c.Ok? then Ok(FindingsSection(c.value)) else Err(c.error),
      d => Ok(FindingsSection(Style.AnalyzeStyle(d, services.style, decode))))
  }

  /** The readability and style analyzers catch everything, so their
      sections are always there and no error names them; the completeness
      section is missing exactly when its service raised, and then the
      error list carries that message. */
  lemma OnlyStructureAndCompletenessFail(
    url: string, doc: string, score: Readability.Score, services: Services, decode: Decoder,
    structure: Analyzer<Section>)
    ensures FullAnalysis(url, doc, score, services, decode, structure).readability
      == Some(ReadabilitySection(Readability.AnalyzeReadability(doc, score, services.readability, decode)))
    ensures FullAnalysis(url, doc, score, services, decode, structure).styleGuidelines
      == Some(FindingsSection(Style.AnalyzeStyle(doc, services.style, decode)))
    ensures !Names(FullAnalysis(url, doc, score, services, decode, structure).errors, 0)
    ensures !Names(FullAnalysis(url, doc, score, services, decode, structure).errors, 3)
    ensures FullAnalysis(url, doc, score, services, decode, structure).completenessOfInformation.None?
      <==> !IsBlank(doc) && services.completeness(doc).Raised?
    ensures FullAnalysis(url, doc, score, services, decode, structure).completenessOfInformation.None? ==>
      CompletenessFailed + services.completeness(doc).error in FullAnalysis(url, doc, score, services, decode, structure).errors
  {
    var o1: Result<Section> := Ok(ReadabilitySection(Readability.AnalyzeReadability(doc, score, services.readability, decode)));
    var c := Completeness.AnalyzeCompleteness(doc, services.completeness, decode);
    var o3: Result<Section> := if c.Ok? then Ok(FindingsSection(c.value)) else Err(c.error);
    var o4: Result<Section> := Ok(FindingsSection(Style.AnalyzeStyle(doc, services.style, decode)));
    assert FullAnalysis(url, doc, score, services, decode, structure).errors == Errors(o1, structure(doc), o3, o4);
    MissingSectionsAreNamed(o1, structure(doc), o3, o4);
    ErrorsCarryMessages(o1, structure(doc), o3, o4);
  }
}
