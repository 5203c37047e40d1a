/**
 * `formatAnalysisContent` (src/components/ReportPDF.tsx): the lines of the PDF report. Two
 * `replace` calls delete decoration characters, the text is split on newlines, blank lines are
 * dropped and lines naming a section are replaced by the bare section title.
 */
module ReportFormat {
  import opened Text
  import ContentCleaning

  /** The class `[=Ê,<¯]` of the first `replace`. */
  const FirstPassChars: set<char> := {'=', '\U{00CA}', ',', '<', '\U{00AF}'}

  /** The alternation `🔍|📋|[*]` of the second `replace`. */
  const SecondPassChars: set<char> := {'\U{1F50D}', '\U{1F4CB}', '*'}

  const ExecutiveSummary: string := "EXECUTIVE SUMMARY"
  const DetailedAnalysis: string := "DETAILED ANALYSIS"
  const FinalVerdict: string := "FINAL VERDICT"

  predicate Stripped(c: char) {
    c in FirstPassChars || c in SecondPassChars
  }

  predicate NoneOf(s: string, drop: set<char>) {
    forall k :: 0 <= k < |s| ==> s[k] !in drop
  }

  /* ---- Character removal ---- */

  /** `s.replace(/[...]/g, '')`: every character of `drop` deleted, the others kept in order. */
  function Without(s: string, drop: set<char>): (r: string)
    ensures NoneOf(r, drop) && |r| <= |s|
  {
    if s == [] then []
    else (if s[0] in drop then [] else [s[0]]) + Without(s[1..], drop)
  }

  /** Removal distributes over concatenation. */
  lemma {:induction false} WithoutAppend(a: string, b: string, drop: set<char>)
    ensures Without(a + b, drop) == Without(a, drop) + Without(b, drop)
    decreases |a|
  {
    if a != [] {
      assert (a + b)[1..] == a[1..] + b;
      WithoutAppend(a[1..], b, drop);
    } else {
      assert a + b == b;
    }
  }

  /** Removal deletes nothing from a string that has none of the characters: with
      `NoneOf(Without(...))` this makes removal idempotent. */
  lemma {:induction false} WithoutNoneOf(s: string, drop: set<char>)
    requires NoneOf(s, drop)
    ensures Without(s, drop) == s
    decreases |s|
  {
    if s != [] {
      WithoutNoneOf(s[1..], drop);
      assert s == [s[0]] + s[1..];
    }
  }

  /** Both `replace` calls, in order. */
  function StripChars(s: string): string {
    Without(Without(s, FirstPassChars), SecondPassChars)
  }

  /** The two passes delete exactly the characters of either set. */
  lemma {:induction false} StripCharsOnePass(s: string)
    ensures StripChars(s) == Without(s, FirstPassChars + SecondPassChars)
    decreases |s|
  {
    if s != [] {
      StripCharsOnePass(s[1..]);
      var head := if s[0] in FirstPassChars then [] else [s[0]];
      WithoutAppend(head, Without(s[1..], FirstPassChars), SecondPassChars);
    }
  }

  /** Removal that spares the newline commutes with joining two lines. */
  lemma WithoutAround(a: string, b: string, drop: set<char>)
    requires '\n' !in drop
    ensures Without(a + "\n" + b, drop) == Without(a, drop) + "\n" + Without(b, drop)
  {
    WithoutAppend(a + "\n", b, drop);
    WithoutAppend(a, "\n", drop);
    assert Without("\n", drop) == "\n";
  }

  /** A newline survives removal, so stripping commutes with joining lines. */
  lemma StripCharsAround(a: string, b: string)
    ensures StripChars(a + "\n" + b) == StripChars(a) + "\n" + StripChars(b)
  {
    WithoutAround(a, b, FirstPassChars);
    WithoutAround(Without(a, FirstPassChars), Without(b, FirstPassChars), SecondPassChars);
  }

  /** Stripping leaves a string without decoration characters unchanged. */
  lemma StripCharsClean(s: string)
    requires NoneOf(s, FirstPassChars) && NoneOf(s, SecondPassChars)
    ensures StripChars(s) == s
  {
    WithoutNoneOf(s, FirstPassChars);
    WithoutNoneOf(s, SecondPassChars);
  }

  /* ---- Splitting on newlines ---- */

  /** `s.split('\n')`: the segments between newlines; the empty string gives one empty
      segment. */
  function SplitLines(s: string): (r: seq<string>)
    ensures |r| >= 1
    ensures forall i :: 0 <= i < |r| ==> '\n' !in r[i]
  {
    if s == [] then [[]]
    else
      var t := SplitLines(s[1..]);
      if s[0] == '\n' then [[]] + t else [[s[0]] + t[0]] + t[1..]
  }

  /** `lines.join('\n')` for at least one line. */
  function Join(lines: seq<string>): string
    requires |lines| >= 1
  {
    if |lines| == 1 then lines[0] else lines[0] + "\n" + Join(lines[1..])
  }

  /** A string without a newline is a single segment. */
  lemma {:induction false} SplitLinesSingle(s: string)
    requires '\n' !in s
    ensures SplitLines(s) == [s]
    decreases |s|
  {
    if s != [] {
      assert '\n' !in s[1..];
      SplitLinesSingle(s[1..]);
      assert s == [s[0]] + s[1..];
    }
  }

  /** Splitting a string around a newline splits each side. */
  lemma {:induction false} SplitLinesAround(a: string, b: string)
    ensures SplitLines(a + "\n" + b) == SplitLines(a) + SplitLines(b)
    decreases |a|
  {
    if a == [] {
      assert a + "\n" + b == ['\n'] + b;
      assert (['\n'] + b)[1..] == b;
    } else {
      assert (a + "\n" + b)[1..] == a[1..] + "\n" + b;
      SplitLinesAround(a[1..], b);
    }
  }

  /** Joining the segments gives back the string. */
  lemma {:induction false} JoinSplitLines(s: string)
    ensures Join(SplitLines(s)) == s
    decreases |s|
  {
    if s != [] {
      var t := SplitLines(s[1..]);
      JoinSplitLines(s[1..]);
      if s[0] == '\n' {
        assert ([[]] + t)[1..] == t;
        assert s == [] + "\n" + s[1..];
      } else if |t| == 1 {
        assert s == [s[0]] + s[1..];
      } else {
        var r := [[s[0]] + t[0]] + t[1..];
        assert r[1..] == t[1..];
        assert Join(t) == t[0] + "\n" + Join(t[1..]);
        assert s == [s[0]] + s[1..];
      }
    }
  }

  /** Splitting the join of newline-free lines gives back the lines. */
  lemma {:induction false} SplitLinesJoin(lines: seq<string>)
    requires |lines| >= 1
    requires forall i :: 0 <= i < |lines| ==> '\n' !in lines[i]
    ensures SplitLines(Join(lines)) == lines
    decreases |lines|
  {
    SplitLinesSingle(lines[0]);
    if |lines| > 1 {
      SplitLinesJoin(lines[1..]);
      SplitLinesAround(lines[0], Join(lines[1..]));
      assert lines == [lines[0]] + lines[1..];
    }
  }

  /* ---- Blank lines and headers ---- */

  /** `line.trim().length > 0`. */
  predicate Kept(line: string) {
    |ContentCleaning.Trim(line)| > 0
  }

  /** A line is kept exactly when it has a character other than whitespace. */
  lemma KeptIff(line: string)
    ensures Kept(line) <==> NonBlank(line)
  {
    var a := WsEnd(line, 0);
    var e := ContentCleaning.TrimEndAt(line, a, |line|);
    if NonBlank(line) {
      var k :| 0 <= k < |line| && !IsWs(line[k]);
      assert a <= k;
      assert e > a;
    } else {
      assert a == |line|;
    }
  }

  /** The `.filter` step. */
  function KeepNonBlank(lines: seq<string>): (r: seq<string>)
    ensures |r| <= |lines|
  {
    if lines == [] then []
    else (if Kept(lines[0]) then [lines[0]] else []) + KeepNonBlank(lines[1..])
  }

  lemma {:induction false} KeepNonBlankAppend(a: seq<string>, b: seq<string>)
    ensures KeepNonBlank(a + b) == KeepNonBlank(a) + KeepNonBlank(b)
    decreases |a|
  {
    if a != [] {
      var k: seq<string> := if Kept(a[0]) then [a[0]] else [];
      assert (a + b)[0] == a[0] && (a + b)[1..] == a[1..] + b;
      assert KeepNonBlank(a + b) == k + KeepNonBlank(a[1..] + b);
      assert KeepNonBlank(a) == k + KeepNonBlank(a[1..]);
      KeepNonBlankAppend(a[1..], b);
    } else {
      assert a + b == b;
    }
  }

  /** One `.map` step: a line naming a section becomes the bare title, tested in the order
      executive summary, detailed analysis, final verdict. */
  function HeaderLine(line: string): string {
    if Contains(line, ExecutiveSummary) then ExecutiveSummary
    else if Contains(line, DetailedAnalysis) then DetailedAnalysis
    else if Contains(line, FinalVerdict) then FinalVerdict
    else line
  }

  /** A string contains itself. */
  lemma ContainsSelf(s: string)
    ensures Contains(s, s)
  {
    assert s[..|s|] == s;
  }

  /** A string does not contain a longer one. */
  lemma {:induction false} ContainsShorter(t: string, p: string)
    requires |t| < |p|
    ensures !Contains(t, p)
    decreases |t|
  {
    if |t| > 0 {
      ContainsShorter(t[1..], p);
    }
  }

  /** The three titles, as `HeaderLine` sees them: each contains itself and none of the
      titles tested before it. */
  lemma TitlesDistinct()
    ensures Contains(ExecutiveSummary, ExecutiveSummary)
    ensures Contains(DetailedAnalysis, DetailedAnalysis) && !Contains(DetailedAnalysis, ExecutiveSummary)
    ensures Contains(FinalVerdict, FinalVerdict)
    ensures !Contains(FinalVerdict, ExecutiveSummary) && !Contains(FinalVerdict, DetailedAnalysis)
  {
    ContainsSelf(ExecutiveSummary);
    ContainsSelf(DetailedAnalysis);
    ContainsSelf(FinalVerdict);
    ContainsShorter(DetailedAnalysis[1..], ExecutiveSummary);
    assert DetailedAnalysis[..|ExecutiveSummary|] != ExecutiveSummary by {
      assert DetailedAnalysis[0] != ExecutiveSummary[0];
    }
    ContainsShorter(FinalVerdict, ExecutiveSummary);
    ContainsShorter(FinalVerdict, DetailedAnalysis);
  }

  /** `HeaderLine` yields a title exactly when the line contains that title and none tested
      before it; otherwise it keeps the line. */
  lemma HeaderLineTitles(line: string)
    ensures HeaderLine(line) == ExecutiveSummary <==> Contains(line, ExecutiveSummary)
    ensures HeaderLine(line) == DetailedAnalysis <==>
      !Contains(line, ExecutiveSummary) && Contains(line, DetailedAnalysis)
    ensures HeaderLine(line) == FinalVerdict <==>
      !Contains(line, ExecutiveSummary) && !Contains(line, DetailedAnalysis)
      && Contains(line, FinalVerdict)
    ensures (!Contains(line, ExecutiveSummary) && !Contains(line, DetailedAnalysis)
             && !Contains(line, FinalVerdict)) ==> HeaderLine(line) == line
    ensures HeaderLine(line) == line || Contains(line, HeaderLine(line))
  {
    TitlesDistinct();
    var h := HeaderLine(line);
    if Contains(line, ExecutiveSummary) {
      assert h == ExecutiveSummary;
    } else if Contains(line, DetailedAnalysis) {
      assert h == DetailedAnalysis;
    } else if Contains(line, FinalVerdict) {
      assert h == FinalVerdict;
    } else {
      assert h == line;
    }
  }

  /** Replacing headers twice is replacing them once. */
  lemma HeaderLineIdempotent(line: string)
    ensures HeaderLine(HeaderLine(line)) == HeaderLine(line)
  {
    TitlesDistinct();
    var h := HeaderLine(line);
    if Contains(line, ExecutiveSummary) {
      assert h == ExecutiveSummary;
    } else if Contains(line, DetailedAnalysis) {
      assert h == DetailedAnalysis;
    } else if Contains(line, FinalVerdict) {
      assert h == FinalVerdict;
    } else {
      assert h == line;
    }
  }

  /** The `.map` step. */
  function Headers(lines: seq<string>): (r: seq<string>)
    ensures |r| == |lines|
  {
    if lines == [] then [] else [HeaderLine(lines[0])] + Headers(lines[1..])
  }

  lemma {:induction false} HeadersAppend(a: seq<string>, b: seq<string>)
    ensures Headers(a + b) == Headers(a) + Headers(b)
    decreases |a|
  {
    if a != [] {
      assert (a + b)[1..] == a[1..] + b;
      HeadersAppend(a[1..], b);
    } else {
      assert a + b == b;
    }
  }

  /* ---- The formatter ---- */

  /** A line the report can print: it has text, no newline, no decoration character, and
      it is its own header form. */
  predicate ReportLine(line: string) {
    && Kept(line) && '\n' !in line
    && NoneOf(line, FirstPassChars) && NoneOf(line, SecondPassChars)
    && HeaderLine(line) == line
  }

  /** `formatAnalysisContent`. Every line of the report has text, and none has a newline, a
      decoration character or a section header in any form other than the bare title;
      there are never more lines than newline-separated segments. */
  function FormatAnalysisContent(content: string): (r: seq<string>)
    ensures forall i :: 0 <= i < |r| ==> ReportLine(r[i])
    ensures |r| <= |SplitLines(StripChars(content))|
  {
    var s := StripChars(content);
    assert NoneOf(s, SecondPassChars);
    assert NoneOf(s, FirstPassChars) by {
      StripCharsOnePass(content);
    }
    SplitLinesNoneOf(s, FirstPassChars);
    SplitLinesNoneOf(s, SecondPassChars);
    FormatLines(SplitLines(s));
    Headers(KeepNonBlank(SplitLines(s)))
  }

  /** A kept line without newline or decoration characters becomes a report line. */
  lemma HeaderLineReport(l: string)
    requires Kept(l) && '\n' !in l && NoneOf(l, FirstPassChars) && NoneOf(l, SecondPassChars)
    ensures ReportLine(HeaderLine(l))
  {
    HeaderLineIdempotent(l);
    var h := HeaderLine(l);
    if h != l {
      TitleShape(h);
    }
  }

  /** Upper-case letters and spaces, starting with a letter. */
  predicate Caps(h: string) {
    && |h| > 0 && 'A' <= h[0] <= 'Z'
    && forall k :: 0 <= k < |h| ==> 'A' <= h[k] <= 'Z' || h[k] == ' '
  }

  lemma CapsShape(h: string)
    requires Caps(h)
    ensures Kept(h) && '\n' !in h && NoneOf(h, FirstPassChars) && NoneOf(h, SecondPassChars)
  {
    assert NonBlank(h) by {
      assert !IsWs(h[0]);
    }
    KeptIff(h);
  }

  /** The titles are report lines as far as their characters go. */
  lemma TitleShape(h: string)
    requires h == ExecutiveSummary || h == DetailedAnalysis || h == FinalVerdict
    ensures Kept(h) && '\n' !in h && NoneOf(h, FirstPassChars) && NoneOf(h, SecondPassChars)
  {
    if h == ExecutiveSummary {
      assert Caps(ExecutiveSummary);
    } else if h == DetailedAnalysis {
      assert Caps(DetailedAnalysis);
    } else {
      assert Caps(FinalVerdict);
    }
    CapsShape(h);
  }

  /** Every line of a stripped, split text keeps its properties through the filter and
      the header map. */
  lemma {:induction false} FormatLines(lines: seq<string>)
    requires forall i :: 0 <= i < |lines| ==>
      '\n' !in lines[i] && NoneOf(lines[i], FirstPassChars) && NoneOf(lines[i], SecondPassChars)
    ensures forall i :: 0 <= i < |Headers(KeepNonBlank(lines))| ==>
      ReportLine(Headers(KeepNonBlank(lines))[i])
    decreases |lines|
  {
    if lines != [] {
      FormatLines(lines[1..]);
      var l := lines[0];
      var rest := Headers(KeepNonBlank(lines[1..]));
      if Kept(l) {
        HeaderLineReport(l);
        ConsReportLines(HeaderLine(l), rest);
        assert Headers(KeepNonBlank(lines)) == [HeaderLine(l)] + rest;
      } else {
        assert KeepNonBlank(lines) == KeepNonBlank(lines[1..]);
      }
    }
  }

  lemma ConsReportLines(h: string, rest: seq<string>)
    requires ReportLine(h) && forall i :: 0 <= i < |rest| ==> ReportLine(rest[i])
    ensures forall i :: 0 <= i < |[h] + rest| ==> ReportLine(([h] + rest)[i])
  {
    var r := [h] + rest;
    forall i | 0 <= i < |r| ensures ReportLine(r[i]) {
      if i > 0 {
        assert r[i] == rest[i - 1];
      }
    }
  }

  /** Lines of stripped text carry no decoration characters. */
  lemma {:induction false} SplitLinesNoneOf(s: string, drop: set<char>)
    requires NoneOf(s, drop)
    ensures forall i :: 0 <= i < |SplitLines(s)| ==> NoneOf(SplitLines(s)[i], drop)
    decreases |s|
  {
    if s != [] {
      SplitLinesNoneOf(s[1..], drop);
    }
  }

  /** Formatting text joined at a newline formats each side. */
  lemma FormatAround(a: string, b: string)
    ensures FormatAnalysisContent(a + "\n" + b) ==
            FormatAnalysisContent(a) + FormatAnalysisContent(b)
  {
    StripCharsAround(a, b);
    SplitLinesAround(StripChars(a), StripChars(b));
    var la, lb := SplitLines(StripChars(a)), SplitLines(StripChars(b));
    KeepNonBlankAppend(la, lb);
    HeadersAppend(KeepNonBlank(la), KeepNonBlank(lb));
  }

  /** Printing the report lines one per line and formatting again gives the same lines. */
  lemma FormatIdempotent(content: string)
    ensures var r := FormatAnalysisContent(content);
      r == [] || FormatAnalysisContent(Join(r)) == r
  {
    var r := FormatAnalysisContent(content);
    if r != [] {
      JoinClean(r);
      SplitLinesJoin(r);
      KeepReportLines(r);
      HeadersReportLines(r);
    }
  }

  /** Stripping leaves the join of report lines unchanged. */
  lemma {:induction false} JoinClean(lines: seq<string>)
    requires |lines| >= 1
    requires forall i :: 0 <= i < |lines| ==>
      NoneOf(lines[i], FirstPassChars) && NoneOf(lines[i], SecondPassChars)
    ensures StripChars(Join(lines)) == Join(lines)
    decreases |lines|
  {
    StripCharsClean(lines[0]);
    if |lines| > 1 {
      JoinClean(lines[1..]);
      StripCharsAround(lines[0], Join(lines[1..]));
    }
  }

  /** The filter keeps every report line. */
  lemma {:induction false} KeepReportLines(lines: seq<string>)
    requires forall i :: 0 <= i < |lines| ==> ReportLine(lines[i])
    ensures KeepNonBlank(lines) == lines
    decreases |lines|
  {
    if lines != [] {
      KeepReportLines(lines[1..]);
      assert lines == [lines[0]] + lines[1..];
    }
  }

  /** The header map fixes every report line. */
  lemma {:induction false} HeadersReportLines(lines: seq<string>)
    requires forall i :: 0 <= i < |lines| ==> ReportLine(lines[i])
    ensures Headers(lines) == lines
    decreases |lines|
  {
    if lines != [] {
      HeadersReportLines(lines[1..]);
      assert lines == [lines[0]] + lines[1..];
    }
  }

  /** Each position one further on. */
  function Shift(s: seq<nat>): (r: seq<nat>)
    ensures |r| == |s| && forall j :: 0 <= j < |s| ==> r[j] == s[j] + 1
  {
    if s == [] then [] else [s[0] + 1] + Shift(s[1..])
  }

  /** `idx[j]` is the position of the `j`-th kept line. */
  predicate PositionsOf(lines: seq<string>, idx: seq<nat>) {
    PositionsIn(lines, KeepNonBlank(lines), idx)
  }

  predicate Increasing(idx: seq<nat>) {
    forall j, j' :: 0 <= j < j' < |idx| ==> idx[j] < idx[j']
  }

  /** Every kept line has its position listed. */
  predicate CoversKept(lines: seq<string>, idx: seq<nat>) {
    forall i :: 0 <= i < |lines| && Kept(lines[i]) ==> i in idx
  }

  /** The positions of the kept lines, in increasing order. */
  predicate KeptPositions(lines: seq<string>, idx: seq<nat>) {
    PositionsOf(lines, idx) && Increasing(idx) && CoversKept(lines, idx)
  }

  lemma ShiftIncreasing(tail: seq<nat>)
    requires Increasing(tail)
    ensures Increasing(Shift(tail)) && Increasing([0] + Shift(tail))
  {
    var sh := Shift(tail);
    var idx := [0] + sh;
    forall j, j' | 0 <= j < j' < |idx| ensures idx[j] < idx[j'] {
      assert idx[j'] == sh[j' - 1];
      if j > 0 {
        assert idx[j] == sh[j - 1];
      }
    }
  }

  lemma ShiftCovers(lines: seq<string>, tail: seq<nat>)
    requires |lines| > 0 && CoversKept(lines[1..], tail)
    ensures Kept(lines[0]) ==> CoversKept(lines, [0] + Shift(tail))
    ensures !Kept(lines[0]) ==> CoversKept(lines, Shift(tail))
  {
    var sh := Shift(tail);
    forall i | 1 <= i < |lines| && Kept(lines[i]) ensures i in sh && i in [0] + sh {
      assert lines[1..][i - 1] == lines[i];
      var j :| 0 <= j < |tail| && tail[j] == i - 1;
      assert sh[j] == i;
      assert ([0] + sh)[j + 1] == i;
    }
  }

  lemma ShiftValues(lines: seq<string>, tail: seq<nat>)
    requires |lines| > 0 && PositionsOf(lines[1..], tail)
    ensures PositionsIn(lines, KeepNonBlank(lines[1..]), Shift(tail))
  {
    var sh := Shift(tail);
    forall j | 0 <= j < |sh|
      ensures sh[j] < |lines| && KeepNonBlank(lines[1..])[j] == lines[sh[j]] && Kept(lines[sh[j]])
    {
      assert lines[1..][tail[j]] == lines[sh[j]];
    }
  }

  /** `PositionsOf` against a given filtered sequence. */
  predicate PositionsIn(lines: seq<string>, kept: seq<string>, idx: seq<nat>) {
    && |idx| == |kept|
    && forall j :: 0 <= j < |idx| ==>
         idx[j] < |lines| && kept[j] == lines[idx[j]] && Kept(lines[idx[j]])
  }

  lemma ConsValues(lines: seq<string>, rest: seq<string>, sh: seq<nat>)
    requires |lines| > 0 && Kept(lines[0]) && PositionsIn(lines, rest, sh)
    ensures PositionsIn(lines, [lines[0]] + rest, [0] + sh)
  {
    var idx := [0] + sh;
    var kept := [lines[0]] + rest;
    forall j | 0 <= j < |idx|
      ensures idx[j] < |lines| && kept[j] == lines[idx[j]] && Kept(lines[idx[j]])
    {
      if j > 0 {
        assert idx[j] == sh[j - 1] && kept[j] == rest[j - 1];
      }
    }
  }

  lemma ShiftPositionsOf(lines: seq<string>, tail: seq<nat>)
    requires |lines| > 0 && PositionsOf(lines[1..], tail)
    ensures Kept(lines[0]) ==> PositionsOf(lines, [0] + Shift(tail))
    ensures !Kept(lines[0]) ==> PositionsOf(lines, Shift(tail))
  {
    ShiftValues(lines, tail);
    var rest := KeepNonBlank(lines[1..]);
    if Kept(lines[0]) {
      ConsValues(lines, rest, Shift(tail));
      assert KeepNonBlank(lines) == [lines[0]] + rest;
    } else {
      assert KeepNonBlank(lines) == rest;
    }
  }

  /** The filter keeps the non-blank lines, all of them and in their order: `idx` lists the
      positions of the kept lines. */
  lemma {:induction false} KeepNonBlankIndices(lines: seq<string>) returns (idx: seq<nat>)
    ensures KeptPositions(lines, idx)
    decreases |lines|
  {
    if lines == [] {
      idx := [];
    } else {
      var tail := KeepNonBlankIndices(lines[1..]);
      ShiftIncreasing(tail);
      ShiftCovers(lines, tail);
      ShiftPositionsOf(lines, tail);
      idx := if Kept(lines[0]) then [0] + Shift(tail) else Shift(tail);
    }
  }

  /** The map replaces each line by its header form, position by position. */
  lemma {:induction false} HeadersAt(lines: seq<string>, j: nat)
    requires j < |lines|
    ensures Headers(lines)[j] == HeaderLine(lines[j])
    decreases j
  {
    if j > 0 {
      HeadersAt(lines[1..], j - 1);
    }
  }

  /** The report lines are the header forms of the non-blank segments of the stripped text,
      every one of them, in their original order. */
  lemma FormatKeepsOrder(content: string) returns (idx: seq<nat>)
    ensures var lines := SplitLines(StripChars(content));
      var r := FormatAnalysisContent(content);
      && |idx| == |r|
      && (forall j :: 0 <= j < |idx| ==>
            idx[j] < |lines| && NonBlank(lines[idx[j]]) && r[j] == HeaderLine(lines[idx[j]]))
      && (forall j, j' :: 0 <= j < j' < |idx| ==> idx[j] < idx[j'])
      && (forall i :: 0 <= i < |lines| && NonBlank(lines[i]) ==> i in idx)
  {
    var lines := SplitLines(StripChars(content));
    idx := KeepNonBlankIndices(lines);
    assert KeptPositions(lines, idx);
    var kept := KeepNonBlank(lines);
    forall j | 0 <= j < |idx| ensures FormatAnalysisContent(content)[j] == HeaderLine(lines[idx[j]]) {
      HeadersAt(kept, j);
    }
    forall i | 0 <= i < |lines| ensures Kept(lines[i]) <==> NonBlank(lines[i]) {
      KeptIff(lines[i]);
    }
  }
}
