/** The sentence splitter of the patch engine (`tokenize_sentences`), which is
    `re.split(r'(?<=[\.\!\?])\s+', text)`: every maximal whitespace run that
    directly follows `.`, `!` or `?` is removed and separates two parts. */
module Sentences {
  import opened Wrappers
  import opened Text

  predicate IsTerminal(c: char) {
    c == '.' || c == '!' || c == '?'
  }

  /** Index `i` is where the pattern can match: the lookbehind sees terminal
      punctuation and `\s` sees whitespace. */
  predicate BoundaryAt(s: string, i: nat) {
    1 <= i < |s| && IsTerminal(s[i - 1]) && IsSpace(s[i])
  }

  /** The first match position at or after `from`, as `re` scans left to right. */
  function BoundaryFrom(s: string, from: nat): (r: Option<nat>)
    requires from <= |s|
    ensures r.Some? ==> from <= r.value && BoundaryAt(s, r.value)
    ensures forall m: nat :: from <= m && (r.None? || m < r.value) ==> !BoundaryAt(s, m)
    decreases |s| - from
  {
    if from == |s| then None
    else if BoundaryAt(s, from) then Some(from)
    else BoundaryFrom(s, from + 1)
  }

  /** Where the greedy `\s+` starting at `i` stops. */
  function RunEnd(s: string, i: nat): (j: nat)
    requires i <= |s|
    ensures i <= j <= |s|
    ensures IsBlank(s[i..j])
    ensures j == |s| || !IsSpace(s[j])
    decreases |s| - i
  {
    if i < |s| && IsSpace(s[i]) then RunEnd(s, i + 1) else i
  }

  /** The parts `re.split` returns, together with the whitespace runs it removed. */
  datatype Segmentation = Segmentation(parts: seq<string>, gaps: seq<string>)

  /** Interleaves the parts with the removed runs: the inverse of the split. */
  function Rejoin(parts: seq<string>, gaps: seq<string>): string
    requires |parts| == |gaps| + 1
  {
    if gaps == [] then parts[0] else parts[0] + gaps[0] + Rejoin(parts[1..], gaps[1..])
  }

  /** The split with its separators: the text up to the first split point, the
      whitespace run there, and the split of what follows the run. */
  function Segment(s: string): (r: Segmentation)
    ensures |r.parts| == |r.gaps| + 1
    decreases |s|
  {
    var b := BoundaryFrom(s, 0);
    if b.None? then Segmentation([s], [])
    else
      var j := RunEnd(s, b.value);
      var rest := Segment(s[j..]);
      Segmentation([s[..b.value]] + rest.parts, [s[b.value..j]] + rest.gaps)
  }

  /** The first step of the split: the text before the first split point,
      the run removed there, and the rest. */
  lemma FirstSplit(s: string)
    requires BoundaryFrom(s, 0).Some?
    ensures var i := BoundaryFrom(s, 0).value;
      var j := RunEnd(s, i);
      && Segment(s).parts == [s[..i]] + Segment(s[j..]).parts
      && Segment(s).gaps == [s[i..j]] + Segment(s[j..]).gaps
  {
  }

  lemma RejoinCons(part: string, gap: string, parts: seq<string>, gaps: seq<string>)
    requires |parts| == |gaps| + 1
    ensures Rejoin([part] + parts, [gap] + gaps) == part + gap + Rejoin(parts, gaps)
  {
    assert ([part] + parts)[1..] == parts && ([gap] + gaps)[1..] == gaps;
  }

  /** Joining the parts with the removed runs restores the text. */
  lemma {:induction false} SegmentRejoins(s: string)
    ensures Rejoin(Segment(s).parts, Segment(s).gaps) == s
    decreases |s|
  {
    var b := BoundaryFrom(s, 0);
    if b.Some? {
      var i := b.value;
      var j := RunEnd(s, i);
      var rest := Segment(s[j..]);
      FirstSplit(s);
      RejoinCons(s[..i], s[i..j], rest.parts, rest.gaps);
      SegmentRejoins(s[j..]);
      assert s == s[..i] + s[i..j] + s[j..];
    }
  }

  /** Every removed run is non-empty whitespace. */
  lemma {:induction false} GapsAreBlank(s: string)
    ensures forall k :: 0 <= k < |Segment(s).gaps| ==> Segment(s).gaps[k] != [] && IsBlank(Segment(s).gaps[k])
    decreases |s|
  {
    var b := BoundaryFrom(s, 0);
    if b.Some? {
      var i := b.value;
      var j := RunEnd(s, i);
      var r := Segment(s);
      var rest := Segment(s[j..]);
      FirstSplit(s);
      GapsAreBlank(s[j..]);
      forall k | 0 <= k < |r.gaps|
        ensures r.gaps[k] != [] && IsBlank(r.gaps[k])
      {
        if k > 0 {
          assert r.gaps[k] == rest.gaps[k - 1];
        }
      }
    }
  }

  /** Every part but the last ends in terminal punctuation. */
  lemma {:induction false} PartsEndTerminal(s: string)
    ensures forall k :: 0 <= k < |Segment(s).parts| - 1 ==>
      Segment(s).parts[k] != [] && IsTerminal(Segment(s).parts[k][|Segment(s).parts[k]| - 1])
    decreases |s|
  {
    var b := BoundaryFrom(s, 0);
    if b.Some? {
      var i := b.value;
      var j := RunEnd(s, i);
      var r := Segment(s);
      var rest := Segment(s[j..]);
      FirstSplit(s);
      PartsEndTerminal(s[j..]);
      forall k | 0 <= k < |r.parts| - 1
        ensures r.parts[k] != [] && IsTerminal(r.parts[k][|r.parts[k]| - 1])
      {
        if k > 0 {
          assert r.parts[k] == rest.parts[k - 1];
        } else {
          assert BoundaryAt(s, i);
          assert r.parts[0] == s[..i] && s[..i][i - 1] == s[i - 1];
        }
      }
    }
  }

  /** The text before the first split point has no split point of its own. */
  lemma HeadHasNoBoundary(s: string, m: nat)
    requires BoundaryFrom(s, 0).Some?
    ensures !BoundaryAt(s[..BoundaryFrom(s, 0).value], m)
  {
    var head := s[..BoundaryFrom(s, 0).value];
    if 1 <= m < |head| {
      assert head[m - 1] == s[m - 1] && head[m] == s[m];
      assert !BoundaryAt(s, m);
    }
  }

  /** No part contains a split point. */
  lemma {:induction false} PartsHaveNoBoundary(s: string)
    ensures forall k, m: nat :: 0 <= k < |Segment(s).parts| ==> !BoundaryAt(Segment(s).parts[k], m)
    decreases |s|
  {
    var b := BoundaryFrom(s, 0);
    if b.Some? {
      var i := b.value;
      var j := RunEnd(s, i);
      var r := Segment(s);
      var rest := Segment(s[j..]);
      FirstSplit(s);
      PartsHaveNoBoundary(s[j..]);
      forall k, m: nat | 0 <= k < |r.parts|
        ensures !BoundaryAt(r.parts[k], m)
      {
        if k > 0 {
          assert r.parts[k] == rest.parts[k - 1];
        } else {
          HeadHasNoBoundary(s, m);
        }
      }
    } else {
      assert Segment(s) == Segmentation([s], []);
    }
  }

  /** The first part is where the text starts. */
  lemma FirstPartIsPrefix(s: string)
    ensures |Segment(s).parts[0]| <= |s| && Segment(s).parts[0] == s[..|Segment(s).parts[0]|]
  {
  }

  /** The whole whitespace run is removed: every part after the first is
      empty or starts with a non-space. */
  lemma {:induction false} PartsFollowWholeRuns(s: string)
    ensures forall k :: 1 <= k < |Segment(s).parts| ==>
      Segment(s).parts[k] == [] || !IsSpace(Segment(s).parts[k][0])
    decreases |s|
  {
    var b := BoundaryFrom(s, 0);
    if b.Some? {
      var i := b.value;
      var j := RunEnd(s, i);
      var r := Segment(s);
      var rest := Segment(s[j..]);
      FirstSplit(s);
      PartsFollowWholeRuns(s[j..]);
      FirstPartIsPrefix(s[j..]);
      forall k | 1 <= k < |r.parts|
        ensures r.parts[k] == [] || !IsSpace(r.parts[k][0])
      {
        assert r.parts[k] == rest.parts[k - 1];
        if k == 1 && rest.parts[0] != [] {
          assert rest.parts[0][0] == s[j..][0] == s[j];
        }
      }
    }
  }

  /** `tokenize_sentences(text)`: never empty, every sentence but the last ends
      in `.`, `!` or `?`, no sentence contains a split point, and every
      sentence after the first starts where a whitespace run ended. */
  function TokenizeSentences(s: string): (r: seq<string>)
    ensures r != []
    ensures forall k :: 0 <= k < |r| - 1 ==> r[k] != [] && IsTerminal(r[k][|r[k]| - 1])
    ensures forall k, m: nat :: 0 <= k < |r| ==> !BoundaryAt(r[k], m)
    ensures forall k :: 1 <= k < |r| ==> r[k] == [] || !IsSpace(r[k][0])
  {
    PartsEndTerminal(s);
    PartsHaveNoBoundary(s);
    PartsFollowWholeRuns(s);
    Segment(s).parts
  }

  /** Re-joining the sentences with the removed whitespace runs gives back the
      text, and a text with no split point is a single sentence. */
  lemma TokenizeRoundTrip(s: string)
    ensures Rejoin(TokenizeSentences(s), Segment(s).gaps) == s
    ensures forall k :: 0 <= k < |Segment(s).gaps| ==> Segment(s).gaps[k] != [] && IsBlank(Segment(s).gaps[k])
    ensures (forall m: nat :: !BoundaryAt(s, m)) ==> TokenizeSentences(s) == [s]
  {
    SegmentRejoins(s);
    GapsAreBlank(s);
  }
}
