/** The Python `str` operations the patch engine and the reply readers rely on:
    whitespace, `strip`, `in`, `replace`, `split(sep, 1)`, `splitlines`,
    `startswith`/`endswith`, `"sep".join` and `str(int)`. */
module Text {
  import opened Wrappers
  import opened Choice

  /** Python's `str.isspace()` for one character; `\s` in `re` matches the same class. */
  predicate IsSpace(c: char) {
    || c == ' '
    || '\t' <= c <= '\r'
    || '\U{1C}' <= c <= '\U{1F}'
    || c == '\U{85}' || c == '\U{A0}' || c == '\U{1680}'
    || '\U{2000}' <= c <= '\U{200A}'
    || c == '\U{2028}' || c == '\U{2029}' || c == '\U{202F}' || c == '\U{205F}' || c == '\U{3000}'
  }

  /** The line boundaries recognised by Python's `str.splitlines()`. */
  predicate IsLineBreak(c: char) {
    || '\n' <= c <= '\r'
    || '\U{1C}' <= c <= '\U{1E}'
    || c == '\U{85}' || c == '\U{2028}' || c == '\U{2029}'
  }

  /** Python's `not s or s.isspace()`: empty, or whitespace only. */
  predicate IsBlank(s: string) {
    forall k :: 0 <= k < |s| ==> IsSpace(s[k])
  }

  // ---------------------------------------------------------------- strip

  /** Python's `s.lstrip()`. */
  function TrimStart(s: string): (r: string)
    ensures |r| <= |s| && r == s[|s| - |r|..]
    ensures IsBlank(s[..|s| - |r|])
    ensures r == [] || !IsSpace(r[0])
  {
    if |s| > 0 && IsSpace(s[0]) then
      var r := TrimStart(s[1..]);
      TrimStartStep(s, r);
      r
    else s
  }

  /** Python's `s.rstrip()`. */
  function TrimEnd(s: string): (r: string)
    ensures |r| <= |s| && r == s[..|r|]
    ensures IsBlank(s[|r|..])
    ensures r == [] || !IsSpace(r[|r| - 1])
  {
    if |s| > 0 && IsSpace(s[|s| - 1]) then
      var r := TrimEnd(s[..|s| - 1]);
      assert s[|r|..] == s[..|s| - 1][|r|..] + [s[|s| - 1]];
      assert s[..|s| - 1][..|r|] == s[..|r|];
      BlankSnoc(s[..|s| - 1][|r|..], s[|s| - 1]);
      r
    else s
  }

  /** What `lstrip` leaves of `s[1..]` after a leading space is what it leaves of `s`. */
  lemma TrimStartStep(s: string, r: string)
    requires 0 < |s| && IsSpace(s[0]) && |r| <= |s| - 1
    requires r == s[1..][|s| - 1 - |r|..] && IsBlank(s[1..][..|s| - 1 - |r|])
    ensures r == s[|s| - |r|..] && IsBlank(s[..|s| - |r|])
  {
    var m := |s| - 1 - |r|;
    assert s[..m + 1] == [s[0]] + s[1..][..m];
    BlankCons(s[0], s[1..][..m]);
  }

  lemma BlankCons(c: char, t: string)
    requires IsSpace(c) && IsBlank(t)
    ensures IsBlank([c] + t)
  {
    assert forall k :: 1 <= k < |[c] + t| ==> ([c] + t)[k] == t[k - 1];
  }

  lemma BlankSnoc(t: string, c: char)
    requires IsBlank(t) && IsSpace(c)
    ensures IsBlank(t + [c])
  {
    assert forall k :: 0 <= k < |t| ==> (t + [c])[k] == t[k];
  }

  /** Python's `s.strip()`. */
  function Strip(s: string): (r: string)
    ensures |r| <= |s|
    ensures r == [] <==> IsBlank(s)
    ensures r == [] || (!IsSpace(r[0]) && !IsSpace(r[|r| - 1]))
  {
    var t := TrimStart(s);
    assert s == s[..|s| - |t|] + t;
    TrimEnd(t)
  }

  lemma {:induction false} TrimStartSkipsBlank(pre: string, rest: string)
    requires IsBlank(pre)
    ensures TrimStart(pre + rest) == TrimStart(rest)
    decreases |pre|
  {
    if pre != [] {
      assert (pre + rest)[1..] == pre[1..] + rest;
      TrimStartSkipsBlank(pre[1..], rest);
    } else {
      assert pre + rest == rest;
    }
  }

  lemma {:induction false} TrimEndSkipsBlank(rest: string, post: string)
    requires IsBlank(post)
    ensures TrimEnd(rest + post) == TrimEnd(rest)
    decreases |post|
  {
    if post != [] {
      assert (rest + post)[..|rest + post| - 1] == rest + post[..|post| - 1];
      TrimEndSkipsBlank(rest, post[..|post| - 1]);
    } else {
      assert rest + post == rest;
    }
  }

  /** `strip` removes exactly the blank margins: any text whose ends are not
      whitespace comes back unchanged from between blank padding. */
  lemma StripPadded(pre: string, core: string, post: string)
    requires IsBlank(pre) && IsBlank(post)
    requires core == [] || (!IsSpace(core[0]) && !IsSpace(core[|core| - 1]))
    ensures Strip(pre + core + post) == core
  {
    var rest := core + post;
    assert pre + core + post == pre + rest;
    TrimStartSkipsBlank(pre, rest);
    if core == [] {
      assert rest == post;
      TrimStartOfBlank(post);
    } else {
      assert rest[0] == core[0];
      assert TrimStart(rest) == rest;
      TrimEndSkipsBlank(core, post);
    }
  }

  lemma TrimStartOfBlank(s: string)
    requires IsBlank(s)
    ensures TrimStart(s) == []
  {
  }

  /** `strip` is idempotent. */
  lemma StripIdempotent(s: string)
    ensures Strip(Strip(s)) == Strip(s)
  {
    var r := Strip(s);
    StripPadded([], r, []);
    assert [] + r + [] == r;
  }

  // ---------------------------------------------------------------- search

  /** `sub` occurs in `s` starting at index `i`. */
  predicate OccursAt(s: string, sub: string, i: nat) {
    i + |sub| <= |s| && s[i..i + |sub|] == sub
  }

  function IndexFrom(s: string, sub: string, from: nat): (r: Option<nat>)
    requires from <= |s|
    ensures r.Some? ==> from <= r.value && OccursAt(s, sub, r.value)
    ensures forall j :: from <= j && (r.None? || j < r.value) ==> !OccursAt(s, sub, j)
    decreases |s| - from
  {
    if OccursAt(s, sub, from) then Some(from)
    else if from == |s| then None
    else IndexFrom(s, sub, from + 1)
  }

  /** Python's `s.find(sub)`: the first index at which `sub` occurs. */
  function IndexOf(s: string, sub: string): (r: Option<nat>)
    ensures r.Some? ==> OccursAt(s, sub, r.value)
    ensures forall j: nat :: (r.None? || j < r.value) ==> !OccursAt(s, sub, j)
  {
    IndexFrom(s, sub, 0)
  }

  /** Python's `sub in s`. */
  predicate Contains(s: string, sub: string) {
    IndexOf(s, sub).Some?
  }

  // ---------------------------------------------------------------- replace

  /** `repl` before every character of `s` and once more at the end. */
  function Interleave(s: string, repl: string): string
  {
    if s == [] then repl else repl + [s[0]] + Interleave(s[1..], repl)
  }

  /** Python's `s.replace(target, repl)`: the occurrences of `target` found
      scanning left to right without overlap each become `repl`; an empty
      `target` puts `repl` around every character. */
  function ReplaceAll(s: string, target: string, repl: string): string {
    if target == [] then Interleave(s, repl) else ReplaceEach(s, target, repl)
  }

  /** `replace` for a non-empty `target`. */
  function ReplaceEach(s: string, target: string, repl: string): string
    requires target != []
    decreases |s|
  {
    var found := IndexOf(s, target);
    if found.None? then s
    else s[..found.value] + repl + ReplaceEach(s[found.value + |target|..], target, repl)
  }

  /** When `target` does not occur, `replace` leaves the text as it is. */
  lemma ReplaceAllAbsent(s: string, target: string, repl: string)
    requires !Contains(s, target)
    ensures ReplaceAll(s, target, repl) == s
  {
    assert target != [] by {
      if target == [] { assert OccursAt(s, target, 0); }
    }
  }

  /** An occurrence at the start followed by none later: exactly that one is replaced. */
  lemma ReplaceAllLeading(target: string, repl: string, tail: string)
    requires target != [] && !Contains(tail, target)
    ensures ReplaceAll(target + tail, target, repl) == repl + tail
  {
    var s := target + tail;
    assert s[..|target|] == target;
    assert OccursAt(s, target, 0);
    assert IndexOf(s, target) == Some(0);
    assert s[|target|..] == tail;
    ReplaceAllAbsent(tail, target, repl);
  }

  /** Python's `s.count(sub)`: the number of occurrences `replace` rewrites. */
  function Count(s: string, sub: string): nat
    decreases |s|
  {
    if sub == [] then |s| + 1
    else
      var found := IndexOf(s, sub);
      if found.None? then 0
      else 1 + Count(s[found.value + |sub|..], sub)
  }

  /** Each rewritten occurrence changes the length by `|repl| - |target|`. */
  lemma ReplaceAllLength(s: string, target: string, repl: string)
    ensures |ReplaceAll(s, target, repl)| == |s| + Count(s, target) * (|repl| - |target|)
  {
    if target == [] {
      InterleaveLength(s, repl);
    } else {
      ReplaceEachLength(s, target, repl);
    }
  }

  lemma {:induction false} ReplaceEachLength(s: string, target: string, repl: string)
    requires target != []
    ensures |ReplaceEach(s, target, repl)| == |s| + Count(s, target) * (|repl| - |target|)
    decreases |s|
  {
    if IndexOf(s, target).Some? {
      var i := IndexOf(s, target).value;
      var tail := s[i + |target|..];
      ReplaceEachLength(tail, target, repl);
      var d := |repl| - |target|;
      var c := Count(tail, target);
      var rest := |ReplaceEach(tail, target, repl)|;
      assert Count(s, target) == 1 + c;
      assert |ReplaceEach(s, target, repl)| == i + |repl| + rest;
      assert rest == |s| - i - |target| + c * d;
      MulSucc(c, d);
    }
  }

  lemma MulSucc(c: int, d: int)
    ensures (1 + c) * d == d + c * d
  {
  }

  /** Replacing a text by itself changes nothing. */
  lemma ReplaceAllSelf(s: string, x: string)
    ensures ReplaceAll(s, x, x) == s
  {
    if x == [] {
      InterleaveEmpty(s);
    } else {
      ReplaceEachSelf(s, x);
    }
  }

  lemma {:induction false} ReplaceEachSelf(s: string, x: string)
    requires x != []
    ensures ReplaceEach(s, x, x) == s
    decreases |s|
  {
    if IndexOf(s, x).Some? {
      var i := IndexOf(s, x).value;
      var tail := s[i + |x|..];
      ReplaceEachSelf(tail, x);
      assert s[i..i + |x|] == x;
      assert s == s[..i] + s[i..i + |x|] + tail;
    }
  }

  lemma {:induction false} InterleaveLength(s: string, repl: string)
    ensures |Interleave(s, repl)| == |s| + (|s| + 1) * |repl|
  {
    if s != [] {
      InterleaveLength(s[1..], repl);
    }
  }

  lemma {:induction false} InterleaveEmpty(s: string)
    ensures Interleave(s, []) == s
  {
    if s != [] {
      InterleaveEmpty(s[1..]);
      assert s == [s[0]] + s[1..];
    }
  }

  // ---------------------------------------------------------------- split

  /** Splitting at the first occurrence of `sep` recovers the text around it. */
  lemma SplitOnceAtFirst(a: string, sep: string, b: string)
    requires sep != []
    requires forall j: nat :: j < |a| ==> !OccursAt(a + sep + b, sep, j)
    ensures SplitOnce(a + sep + b, sep) == Some((a, b))
  {
    var s := a + sep + b;
    assert s[|a|..|a| + |sep|] == sep;
    assert OccursAt(s, sep, |a|);
    assert IndexOf(s, sep) == Some(|a|);
    assert s[..|a|] == a;
    assert s[|a| + |sep|..] == b;
  }

  /** Python's `s.split(sep, 1)`: `None` stands for the one-element list (no
      occurrence); otherwise the texts before and after the first occurrence. */
  function SplitOnce(s: string, sep: string): (r: Option<(string, string)>)
    requires sep != []
    ensures r.None? <==> !Contains(s, sep)
    ensures r.Some? ==> s == r.value.0 + sep + r.value.1
    ensures r.Some? ==> forall j: nat :: j < |r.value.0| ==> !OccursAt(s, sep, j)
  {
    match IndexOf(s, sep)
    case None => None
    case Some(i) =>
      assert s == s[..i] + sep + s[i + |sep|..];
      Some((s[..i], s[i + |sep|..]))
  }

  function LineBreakFrom(s: string, from: nat): (r: Option<nat>)
    requires from <= |s|
    ensures r.Some? ==> from <= r.value < |s| && IsLineBreak(s[r.value])
    ensures forall j :: from <= j < |s| && (r.None? || j < r.value) ==> !IsLineBreak(s[j])
    decreases |s| - from
  {
    if from == |s| then None
    else if IsLineBreak(s[from]) then Some(from)
    else LineBreakFrom(s, from + 1)
  }

  /** A line boundary `splitlines` removes: one line-break character, or `\r\n`. */
  predicate IsBoundary(b: string) {
    b == "\r\n" || (|b| == 1 && IsLineBreak(b[0]))
  }

  /** Where the boundary starting at the line break `s[i]` ends: `\r\n` is one boundary. */
  function BoundaryEnd(s: string, i: nat): (j: nat)
    requires i < |s| && IsLineBreak(s[i])
    ensures i < j <= |s| && IsBoundary(s[i..j])
    ensures s[i..j] == "\r" ==> j == |s| || s[j] != '\n'
  {
    if s[i] == '\r' && i + 1 < |s| && s[i + 1] == '\n' then i + 2 else i + 1
  }

  /** Python's `s.splitlines()`: the texts between line boundaries, with no
      empty line after a final boundary. `SplitLinesRoundTrip` states that
      these lines and the removed boundaries make up the text. */
  function SplitLines(s: string): (r: seq<string>)
    ensures s == [] <==> r == []
    ensures forall k, j :: 0 <= k < |r| && 0 <= j < |r[k]| ==> !IsLineBreak(r[k][j])
    decreases |s|
  {
    match LineBreakFrom(s, 0)
    case None => if s == [] then [] else [s]
    case Some(i) => [s[..i]] + SplitLines(s[BoundaryEnd(s, i)..])
  }

  /** The boundary removed after each line of `SplitLines(s)`; the last is
      empty when the text does not end in a boundary. */
  function LineEnds(s: string): (r: seq<string>)
    decreases |s|
  {
    match LineBreakFrom(s, 0)
    case None => if s == [] then [] else [[]]
    case Some(i) => [s[i..BoundaryEnd(s, i)]] + LineEnds(s[BoundaryEnd(s, i)..])
  }

  /** Each line followed by its boundary, all concatenated. */
  function Unlines(lines: seq<string>, ends: seq<string>): string
    requires |lines| == |ends|
  {
    if lines == [] then [] else lines[0] + ends[0] + Unlines(lines[1..], ends[1..])
  }

  /** `lines` and `ends` split a text into lines as `splitlines` does: every
      end is a boundary, except an empty last one after a non-empty last
      line (so there is no empty line after a final boundary), and a lone
      `\r` is never followed by `\n` (that pair is one boundary). */
  predicate LineSplit(lines: seq<string>, ends: seq<string>) {
    && |lines| == |ends|
    && (forall k :: 0 <= k < |ends| ==> IsBoundary(ends[k]) || (k == |ends| - 1 && ends[k] == [] && lines[k] != []))
    && (forall k :: 0 <= k < |ends| - 1 && ends[k] == "\r" ==> !(lines[k + 1] == [] && ends[k + 1] == "\n"))
  }

  lemma ConsLineSplit(line: string, end: string, lines: seq<string>, ends: seq<string>)
    requires LineSplit(lines, ends) && IsBoundary(end)
    requires end == "\r" && lines != [] ==> !(lines[0] == [] && ends[0] == "\n")
    ensures LineSplit([line] + lines, [end] + ends)
  {
    var ls, es := [line] + lines, [end] + ends;
    forall k | 1 <= k < |es|
      ensures IsBoundary(es[k]) || (k == |es| - 1 && es[k] == [] && ls[k] != [])
    {
      assert es[k] == ends[k - 1] && ls[k] == lines[k - 1];
    }
    forall k | 1 <= k < |es| - 1 && es[k] == "\r"
      ensures !(ls[k + 1] == [] && es[k + 1] == "\n")
    {
      assert es[k] == ends[k - 1] && ls[k + 1] == lines[k] && es[k + 1] == ends[k];
    }
  }

  lemma UnlinesCons(line: string, end: string, lines: seq<string>, ends: seq<string>)
    requires |lines| == |ends|
    ensures Unlines([line] + lines, [end] + ends) == line + end + Unlines(lines, ends)
  {
    assert ([line] + lines)[1..] == lines && ([end] + ends)[1..] == ends;
  }

  /** The first step of `splitlines`: the text before the first line break,
      the boundary there, and the lines of the rest. */
  lemma FirstLine(s: string, i: nat)
    requires LineBreakFrom(s, 0) == Some(i)
    ensures SplitLines(s) == [s[..i]] + SplitLines(s[BoundaryEnd(s, i)..])
    ensures LineEnds(s) == [s[i..BoundaryEnd(s, i)]] + LineEnds(s[BoundaryEnd(s, i)..])
  {
  }

  /** The lines of `splitlines` followed by the boundaries it removed give back the text. */
  lemma {:induction false} SplitLinesRejoin(s: string)
    ensures |LineEnds(s)| == |SplitLines(s)|
    ensures Unlines(SplitLines(s), LineEnds(s)) == s
    decreases |s|
  {
    match LineBreakFrom(s, 0)
    case None =>
      if s != [] {
        UnlinesCons(s, [], [], []);
      }
    case Some(i) =>
      var j := BoundaryEnd(s, i);
      var rest := s[j..];
      FirstLine(s, i);
      SplitLinesRejoin(rest);
      UnlinesCons(s[..i], s[i..j], SplitLines(rest), LineEnds(rest));
      ThreeParts(s, i, j);
  }

  lemma ThreeParts(s: string, i: nat, j: nat)
    requires i <= j <= |s|
    ensures s[..i] + s[i..j] + s[j..] == s
  {
  }

  /** A text whose first line is empty and ends in `\n` starts with `\n`. */
  lemma EmptyFirstLine(s: string)
    requires SplitLines(s) != [] && SplitLines(s)[0] == [] && |LineEnds(s)| == |SplitLines(s)| && LineEnds(s)[0] == "\n"
    requires Unlines(SplitLines(s), LineEnds(s)) == s
    ensures s != [] && s[0] == '\n'
  {
    var lines, ends := SplitLines(s), LineEnds(s);
    assert s == lines[0] + ends[0] + Unlines(lines[1..], ends[1..]);
  }

  /** The lines and boundaries of `splitlines` form a line split. */
  lemma {:induction false} SplitLinesAreLineSplit(s: string)
    ensures LineSplit(SplitLines(s), LineEnds(s))
    decreases |s|
  {
    match LineBreakFrom(s, 0)
    case None =>
    case Some(i) =>
      var j := BoundaryEnd(s, i);
      FirstLine(s, i);
      SplitLinesAreLineSplit(s[j..]);
      SplitLinesRejoin(s[j..]);
      var lines, ends := SplitLines(s[j..]), LineEnds(s[j..]);
      if lines != [] && lines[0] == [] && ends[0] == "\n" {
        EmptyFirstLine(s[j..]);
      }
      ConsLineSplit(s[..i], s[i..j], lines, ends);
  }

  /** The lines of `splitlines` with the boundaries it removed give back the
      text, and they form a line split. */
  lemma SplitLinesRoundTrip(s: string)
    ensures |LineEnds(s)| == |SplitLines(s)|
    ensures Unlines(SplitLines(s), LineEnds(s)) == s
    ensures LineSplit(SplitLines(s), LineEnds(s))
  {
    SplitLinesRejoin(s);
    SplitLinesAreLineSplit(s);
  }

  /** What `l.strip()` keeps of a line: its stripped text, when that is non-empty. */
  function KeptLine(l: string): (r: Option<string>)
    ensures r.Some? <==> !IsBlank(l)
    ensures r.Some? ==> r.value == Strip(l) && Clean(r.value)
  {
    if IsBlank(l) then None else Some(Strip(l))
  }

  /** The positions of the non-blank lines, increasing. */
  function NonBlankAt(lines: seq<string>): (r: seq<nat>)
    ensures forall i, j :: 0 <= i < j < |r| ==> r[i] < r[j]
  {
    Positions(lines, 0, KeptLine)
  }

  /** `r` is the non-blank `lines`, stripped, in order: it follows `at`, an
      increasing list of positions naming every non-blank line and no other. */
  predicate StrippedInOrder(r: seq<string>, lines: seq<string>, at: seq<nat>) {
    && (forall i, j :: 0 <= i < j < |at| ==> at[i] < at[j])
    && (forall k :: 0 <= k < |lines| ==> (k in at <==> !IsBlank(lines[k])))
    && |r| == |at|
    && (forall j :: 0 <= j < |at| ==> at[j] < |lines| && r[j] == Strip(lines[at[j]]))
  }

  /** `[l.strip() for l in lines if l.strip()]` */
  function StrippedNonBlank(lines: seq<string>): (r: seq<string>)
    ensures StrippedInOrder(r, lines, NonBlankAt(lines))
    ensures AllClean(r)
  {
    ChooseKeepsPicksInOrder(lines, KeptLine);
    var r := Choose(lines, 0, KeptLine);
    var at := NonBlankAt(lines);
    assert Follows(r, at, lines, KeptLine);
    forall j | 0 <= j < |at|
      ensures r[j] == Strip(lines[at[j]]) && Clean(r[j])
    {
      assert r[j] == KeptLine(lines[at[j]]).value;
    }
    r
  }

  /** Every text is clean. */
  predicate AllClean(ts: seq<string>) {
    forall k :: 0 <= k < |ts| ==> Clean(ts[k])
  }

  /** A non-empty text without whitespace at either end, as `strip` leaves a non-blank one. */
  predicate Clean(t: string) {
    t != [] && !IsSpace(t[0]) && !IsSpace(t[|t| - 1])
  }

  /** The stripped, non-blank lines of `s`, in order, as the reply readers
      list suggestions. */
  function NonBlankLines(s: string): (r: seq<string>)
    ensures StrippedInOrder(r, SplitLines(s), NonBlankAt(SplitLines(s)))
    ensures AllClean(r)
    ensures IsBlank(s) ==> r == []
  {
    BlankTextHasNoLines(s);
    StrippedNonBlank(SplitLines(s))
  }

  /** A blank text has no non-blank line. */
  lemma BlankTextHasNoLines(s: string)
    ensures IsBlank(s) ==> NonBlankAt(SplitLines(s)) == []
  {
    var lines := SplitLines(s);
    if IsBlank(s) {
      BlankLinesAreBlank(s);
      ChooseKeepsPicksInOrder(lines, KeptLine);
    }
  }

  lemma {:induction false} BlankLinesAreBlank(s: string)
    requires IsBlank(s)
    ensures forall k :: 0 <= k < |SplitLines(s)| ==> IsBlank(SplitLines(s)[k])
    decreases |s|
  {
    match LineBreakFrom(s, 0)
    case None =>
    case Some(i) =>
      BlankLinesAreBlank(s[BoundaryEnd(s, i)..]);
  }

  // ---------------------------------------------------------------- prefixes, fences

  predicate StartsWith(s: string, p: string) {
    |p| <= |s| && s[..|p|] == p
  }

  predicate EndsWith(s: string, p: string) {
    |p| <= |s| && s[|s| - |p|..] == p
  }

  const JsonFence: string := "```json"
  const Fence: string := "```"

  /** One leading "```json" is dropped, then one trailing "```": the fence
      handling every reader of a generation reply applies. */
  function StripFence(s: string): (r: string)
    ensures |s| - |JsonFence| - |Fence| <= |r| <= |s|
    ensures !StartsWith(s, JsonFence) && !EndsWith(s, Fence) ==> r == s
    ensures StartsWith(s, JsonFence) ==> r == StripTrailingFence(s[|JsonFence|..])
    ensures !StartsWith(s, JsonFence) ==> r == StripTrailingFence(s)
  {
    StripTrailingFence(if StartsWith(s, JsonFence) then s[|JsonFence|..] else s)
  }

  function StripTrailingFence(s: string): (r: string)
    ensures EndsWith(s, Fence) ==> r + Fence == s
    ensures !EndsWith(s, Fence) ==> r == s
  {
    if EndsWith(s, Fence) then s[..|s| - |Fence|] else s
  }

  /** Fence stripping undoes a Markdown JSON fence around any payload. */
  lemma StripFenceUnwraps(m: string)
    ensures StripFence(JsonFence + m + Fence) == m
  {
    var s := JsonFence + m + Fence;
    assert s[..|JsonFence|] == JsonFence;
    assert s[|JsonFence|..] == m + Fence;
    assert (m + Fence)[|m + Fence| - |Fence|..] == Fence;
  }

  // ---------------------------------------------------------------- join, numbers

  /** Python's `sep.join(parts)`. */
  function Join(sep: string, parts: seq<string>): (r: string)
    ensures |parts| == 1 ==> r == parts[0]
  {
    if |parts| == 0 then ""
    else if |parts| == 1 then parts[0]
    else parts[0] + sep + Join(sep, parts[1..])
  }

  function Digit(d: nat): (c: char)
    requires d < 10
    ensures '0' <= c <= '9'
  {
    "0123456789"[d]
  }

  lemma DigitValue(d: nat)
    requires d < 10
    ensures (Digit(d) - '0') as nat == d
  {
  }

  /** Python's `str(n)` for a non-negative integer. */
  function NatToDecimal(n: nat): (r: string)
    ensures r != []
    ensures forall k :: 0 <= k < |r| ==> '0' <= r[k] <= '9'
    ensures n > 0 ==> r[0] != '0'
  {
    if n < 10 then [Digit(n)] else NatToDecimal(n / 10) + [Digit(n % 10)]
  }

  /** Python's `str(i)` for any integer. */
  function IntToDecimal(i: int): string {
    if i < 0 then "-" + NatToDecimal(-i) else NatToDecimal(i)
  }

  /** The value of a string of decimal digits. */
  function DecimalValue(s: string): nat
    requires forall k :: 0 <= k < |s| ==> '0' <= s[k] <= '9'
  {
    if s == [] then 0 else 10 * DecimalValue(s[..|s| - 1]) + (s[|s| - 1] - '0') as nat
  }

  /** Reading the decimal rendering back gives the number: the rendering is faithful. */
  lemma {:induction false} DecimalRoundTrip(n: nat)
    ensures DecimalValue(NatToDecimal(n)) == n
  {
    if n >= 10 {
      DecimalRoundTrip(n / 10);
      var r := NatToDecimal(n);
      assert r[..|r| - 1] == NatToDecimal(n / 10);
      DigitValue(n % 10);
      assert r[|r| - 1] == Digit(n % 10);
    } else {
      DigitValue(n);
      assert NatToDecimal(n) == [Digit(n)];
      assert [Digit(n)][..0] == [];
    }
  }
}
