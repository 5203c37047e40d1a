/**
 * The cleaning chain `analyzeContract` applies to the document text before sending it
 * (src/lib/analyzeContract.ts:144-147):
 *   content.replace(/\s+/g, ' ').replace(/\n\s*\n/g, '\n').trim()
 */
module ContentCleaning {
  import opened Wrappers
  import opened Text

  /** The non-whitespace characters of `s`, in order. */
  function Visible(s: string): string
    decreases |s|
  {
    if s == [] then [] else (if IsWs(s[0]) then [] else [s[0]]) + Visible(s[1..])
  }

  lemma {:induction false} VisibleAppend(a: string, b: string)
    ensures Visible(a + b) == Visible(a) + Visible(b)
    decreases |a|
  {
    if a != [] {
      assert (a + b)[0] == a[0];
      assert (a + b)[1..] == a[1..] + b;
      VisibleAppend(a[1..], b);
    } else {
      assert a + b == b;
    }
  }

  lemma {:induction false} VisibleOfWs(s: string)
    requires AllWs(s)
    ensures Visible(s) == []
    decreases |s|
  {
    if s != [] {
      assert AllWs(s[1..]) by {
        forall k | 0 <= k < |s| - 1 ensures IsWs(s[1..][k]) {
          assert s[1..][k] == s[k + 1];
        }
      }
      VisibleOfWs(s[1..]);
    }
  }

  /** A whitespace character at `k` is not followed by another. */
  predicate LoneWsAt(r: string, k: int)
    requires 0 <= k < |r|
  {
    IsWs(r[k]) ==> r[k] == ' ' && (k + 1 == |r| || !IsWs(r[k + 1]))
  }

  /** Every whitespace character is a plain space, and no two are adjacent. */
  predicate SingleSpaced(r: string) {
    forall k :: 0 <= k < |r| ==> LoneWsAt(r, k)
  }

  /** No whitespace at either end. */
  predicate Trimmed(r: string) {
    r == [] || (!IsWs(r[0]) && !IsWs(r[|r| - 1]))
  }

  /** The shape of cleaned content. */
  predicate Normalized(r: string) {
    SingleSpaced(r) && Trimmed(r)
  }

  /** Prepending a character keeps a string single-spaced unless it is a second space. */
  lemma ConsSingleSpaced(c: char, r: string)
    requires SingleSpaced(r)
    requires IsWs(c) ==> c == ' ' && (r == [] || !IsWs(r[0]))
    ensures SingleSpaced([c] + r)
  {
    var t := [c] + r;
    forall k | 0 <= k < |t| ensures LoneWsAt(t, k) {
      if k > 0 {
        assert t[k] == r[k - 1];
        assert LoneWsAt(r, k - 1);
        if k + 1 < |t| {
          assert t[k + 1] == r[k];
        }
      }
    }
  }

  /** Single-spaced text has no newline and no two consecutive spaces. */
  lemma SingleSpacedShape(r: string)
    requires SingleSpaced(r)
    ensures forall k :: 0 <= k < |r| ==> r[k] != '\n'
    ensures forall k :: 0 <= k < |r| - 1 ==> !(r[k] == ' ' && r[k + 1] == ' ')
  {
    forall k | 0 <= k < |r| ensures r[k] != '\n' {
      assert LoneWsAt(r, k);
    }
    forall k | 0 <= k < |r| - 1 ensures !(r[k] == ' ' && r[k + 1] == ' ') {
      assert LoneWsAt(r, k);
    }
  }

  /** `.replace(/\s+/g, ' ')`: each maximal whitespace run becomes one space. */
  function CollapseWs(s: string): (r: string)
    ensures SingleSpaced(r)
    ensures Visible(r) == Visible(s)
    ensures r == [] <==> s == []
    ensures r != [] ==> (IsWs(r[0]) <==> IsWs(s[0]))
    decreases |s|
  {
    if s == [] then []
    else if IsWs(s[0]) then
      var e := WsEnd(s, 0);
      var rest := CollapseWs(s[e..]);
      assert s == s[..e] + s[e..];
      VisibleAppend(s[..e], s[e..]);
      VisibleOfWs(s[..e]);
      ConsSingleSpaced(' ', rest);
      " " + rest
    else
      var rest := CollapseWs(s[1..]);
      assert s == [s[0]] + s[1..];
      VisibleAppend([s[0]], s[1..]);
      ConsSingleSpaced(s[0], rest);
      [s[0]] + rest
  }

  /** The largest index in [lo, hi) holding a newline. */
  function LastNewline(s: string, lo: nat, hi: nat): (r: Option<nat>)
    requires lo <= hi <= |s|
    ensures r.Some? ==> lo <= r.value < hi && s[r.value] == '\n'
    ensures r.Some? ==> forall k :: r.value < k < hi ==> s[k] != '\n'
    ensures r.None? ==> forall k :: lo <= k < hi ==> s[k] != '\n'
    decreases hi - lo
  {
    if lo == hi then None
    else if s[hi - 1] == '\n' then Some(hi - 1)
    else LastNewline(s, lo, hi - 1)
  }

  /** `s[i]` and `s[k]` are newlines with only whitespace between them: a match of
      `/\n\s*\n/` from `i` to `k`. */
  predicate BlankLineAt(s: string, i: nat, k: nat) {
    i < k < |s| && s[i] == '\n' && s[k] == '\n' && AllWs(s[i + 1..k])
  }

  /** No two newlines are separated by whitespace alone, so `/\n\s*\n/` matches nowhere. */
  predicate NoBlankLine(s: string) {
    forall i, k :: 0 <= i < k < |s| ==> !BlankLineAt(s, i, k)
  }

  /** The whitespace at the front of `s` holds a newline. */
  predicate NewlineInLead(s: string) {
    exists k :: 0 <= k < |s| && s[k] == '\n' && AllWs(s[..k])
  }

  /** `.replace(/\n\s*\n/g, '\n')`. A match starts at a newline; `\s*` first takes the whole
      whitespace run after it and then gives characters back until a newline follows, so the
      match ends at the last newline of that run. Scanning resumes after the match, and
      what is left has no match. */
  function DropBlankLines(s: string): (r: string)
    ensures |r| <= |s|
    ensures Visible(r) == Visible(s)
    ensures NoBlankLine(r)
    ensures !NewlineInLead(s) ==> !NewlineInLead(r)
    decreases |s|
  {
    if s == [] then []
    else if s[0] == '\n' then
      var e := WsEnd(s, 1);
      match LastNewline(s, 1, e)
      case Some(j) =>
        var rest := DropBlankLines(s[j + 1..]);
        NewlineRun(s, j + 1, e, rest);
        "\n" + rest
      case None =>
        var rest := DropBlankLines(s[1..]);
        NewlineRun(s, 1, e, rest);
        "\n" + rest
    else
      var rest := DropBlankLines(s[1..]);
      assert s == [s[0]] + s[1..];
      VisibleAppend([s[0]], s[1..]);
      VisibleAppend([s[0]], rest);
      ConsNoBlankLine(s[0], rest);
      ConsNewlineInLead(s[0], s[1..]);
      ConsNewlineInLead(s[0], rest);
      [s[0]] + rest
  }

  /** A blank line of `[c] + t` that does not start at the front is a blank line of `t`,
      one place earlier, and back. */
  lemma BlankLineShift(c: char, t: string, i: nat, k: nat)
    ensures BlankLineAt([c] + t, i + 1, k + 1) <==> BlankLineAt(t, i, k)
  {
    if i < k < |t| {
      assert ([c] + t)[i + 2..k + 1] == t[i + 1..k];
    }
  }

  /** Putting a character in front of text with no blank line makes none, unless the
      character is a newline and the text's leading whitespace holds another. */
  lemma ConsNoBlankLine(c: char, t: string)
    requires NoBlankLine(t)
    requires c == '\n' ==> !NewlineInLead(t)
    ensures NoBlankLine([c] + t)
  {
    var s := [c] + t;
    forall i, k | 0 <= i < k < |s| ensures !BlankLineAt(s, i, k) {
      if i == 0 && c == '\n' {
        assert t[..k - 1] == s[1..k];
        assert !(t[k - 1] == '\n' && AllWs(t[..k - 1]));
      } else if 0 < i {
        BlankLineShift(c, t, i - 1, k - 1);
      }
    }
  }

  /** Behind a character other than a newline, the leading whitespace holds a newline
      exactly when the character is whitespace and the rest's leading whitespace holds one. */
  lemma ConsNewlineInLead(c: char, t: string)
    requires c != '\n'
    ensures NewlineInLead([c] + t) <==> IsWs(c) && NewlineInLead(t)
  {
    var s := [c] + t;
    if NewlineInLead(s) {
      var k :| 0 <= k < |s| && s[k] == '\n' && AllWs(s[..k]);
      assert s[..k][0] == c;
      var u := t[..k - 1];
      forall m | 0 <= m < |u| ensures IsWs(u[m]) {
        assert u[m] == s[..k][m + 1];
      }
      assert t[k - 1] == '\n';
    }
    if IsWs(c) && NewlineInLead(t) {
      var k :| 0 <= k < |t| && t[k] == '\n' && AllWs(t[..k]);
      assert s[..k + 1] == [c] + t[..k];
      assert s[k + 1] == '\n';
    }
  }

  /** When no newline follows `a` within the whitespace run that ends at `e`, the leading
      whitespace of `s[a..]` holds none. */
  lemma NoNewlineInLeadAfter(s: string, a: nat, e: nat)
    requires a <= e <= |s| && AllWs(s[a..e]) && (e == |s| || !IsWs(s[e]))
    requires forall m :: a <= m < e ==> s[m] != '\n'
    ensures !NewlineInLead(s[a..])
  {
    var t := s[a..];
    forall k | 0 <= k < |t| && t[k] == '\n' ensures !AllWs(t[..k]) {
      assert s[a + k] == '\n';
      assert e - a < k;
      assert t[..k][e - a] == s[e];
    }
  }

  /** Replacing a newline and the whitespace after it, up to `a`, by one newline, when no
      newline is left in the run past `a`: the visible characters stay and no blank line
      is made. */
  lemma NewlineRun(s: string, a: nat, e: nat, rest: string)
    requires 1 <= a <= e <= |s| && s[0] == '\n' && AllWs(s[1..e]) && (e == |s| || !IsWs(s[e]))
    requires forall m :: a <= m < e ==> s[m] != '\n'
    requires Visible(rest) == Visible(s[a..]) && NoBlankLine(rest)
    requires !NewlineInLead(s[a..]) ==> !NewlineInLead(rest)
    ensures Visible("\n" + rest) == Visible(s) && NoBlankLine("\n" + rest)
    ensures NewlineInLead(s)
  {
    assert s[0] == '\n' && AllWs(s[..0]);
    assert AllWs(s[..a]) && AllWs(s[a..e]) by {
      forall k | 1 <= k < e ensures IsWs(s[k]) {
        assert s[k] == s[1..e][k - 1];
      }
    }
    NoNewlineInLeadAfter(s, a, e);
    NewlinePrefixVisible(s, a, rest);
    ConsNoBlankLine('\n', rest);
  }

  /** Replacing a whitespace prefix by one newline keeps the visible characters. */
  lemma NewlinePrefixVisible(s: string, k: nat, rest: string)
    requires 1 <= k <= |s| && AllWs(s[..k]) && Visible(rest) == Visible(s[k..])
    ensures Visible("\n" + rest) == Visible(s)
  {
    VisibleAppend("\n", rest);
    VisibleOfWs("\n");
    assert s == s[..k] + s[k..];
    VisibleAppend(s[..k], s[k..]);
    VisibleOfWs(s[..k]);
  }

  /** On text with no newline the blank-line replacement changes nothing. */
  lemma {:induction false} DropBlankLinesNoNewline(s: string)
    requires forall k :: 0 <= k < |s| ==> s[k] != '\n'
    ensures DropBlankLines(s) == s
    decreases |s|
  {
    if s != [] {
      assert forall k :: 0 <= k < |s| - 1 ==> s[1..][k] == s[k + 1];
      DropBlankLinesNoNewline(s[1..]);
      assert s == [s[0]] + s[1..];
    }
  }

  /** Text with no blank line is left as it is; with `NoBlankLine` of the result, this makes
      the replacement idempotent. */
  lemma {:induction false} DropBlankLinesNone(s: string)
    requires NoBlankLine(s)
    ensures DropBlankLines(s) == s
    decreases |s|
  {
    if s != [] {
      NoBlankLineTail(s);
      DropBlankLinesNone(s[1..]);
      if s[0] == '\n' {
        NoBlankLineResume(s);
        DropBlankLinesAtNewline(s);
      } else {
        DropBlankLinesCons(s);
      }
      ConsTail(s, DropBlankLines(s[1..]));
    }
  }

  /** A non-empty string is its first character followed by the text that equals its tail. */
  lemma ConsTail(s: string, t: string)
    requires s != [] && t == s[1..]
    ensures [s[0]] + t == s
  {
  }

  /** Dropping the first character makes no blank line. */
  lemma NoBlankLineTail(s: string)
    requires s != [] && NoBlankLine(s)
    ensures NoBlankLine(s[1..])
  {
    var t := s[1..];
    assert s == [s[0]] + t;
    forall i, k | 0 <= i < k < |t| ensures !BlankLineAt(t, i, k) {
      BlankLineShift(s[0], t, i, k);
    }
  }

  /** Without a blank line, the run after a leading newline holds no newline, so scanning
      resumes right after it. */
  lemma NoBlankLineResume(s: string)
    requires s != [] && s[0] == '\n' && NoBlankLine(s)
    ensures ResumeAt(s) == 1
  {
    var e := WsEnd(s, 1);
    forall j | 1 <= j < e && s[j] == '\n' ensures BlankLineAt(s, 0, j) {
      var u := s[1..j];
      forall m | 0 <= m < |u| ensures IsWs(u[m]) {
        assert u[m] == s[1..e][m];
      }
    }
    assert LastNewline(s, 1, e).None?;
  }

  /** Away from a newline the replacement copies the first character. */
  lemma DropBlankLinesCons(s: string)
    requires s != [] && s[0] != '\n'
    ensures DropBlankLines(s) == [s[0]] + DropBlankLines(s[1..])
  {
  }

  /** Replacing blank lines twice does no more than replacing them once. */
  lemma DropBlankLinesIdempotent(s: string)
    ensures DropBlankLines(DropBlankLines(s)) == DropBlankLines(s)
  {
    DropBlankLinesNone(DropBlankLines(s));
  }

  /** Where scanning resumes after the match at a leading newline: past the last newline of
      the whitespace run that follows it, or just past it when the run has none. */
  function ResumeAt(s: string): (a: nat)
    requires s != [] && s[0] == '\n'
    ensures 1 <= a <= |s|
  {
    match LastNewline(s, 1, WsEnd(s, 1))
    case Some(j) => j + 1
    case None => 1
  }

  /** At a leading newline the replacement writes one newline and resumes at `ResumeAt`. */
  lemma DropBlankLinesAtNewline(s: string)
    requires s != [] && s[0] == '\n'
    ensures DropBlankLines(s) == "\n" + DropBlankLines(s[ResumeAt(s)..])
  {
  }

  /** Skipping a stretch of whitespace does not move the end of the run. */
  lemma {:induction false} WsEndSkip(s: string, i: nat, j: nat)
    requires i <= j <= |s| && AllWs(s[i..j])
    ensures WsEnd(s, i) == WsEnd(s, j)
    decreases j - i
  {
    if i < j {
      assert IsWs(s[i..j][0]);
      assert s[i + 1..j] == s[i..j][1..];
      WsEndSkip(s, i + 1, j);
    }
  }

  /** The end of a whitespace run depends only on the text from its start on. */
  lemma {:induction false} WsEndSuffix(s: string, d: nat, i: nat)
    requires d <= i <= |s|
    ensures WsEnd(s, i) == d + WsEnd(s[d..], i - d)
    decreases |s| - i
  {
    if i < |s| {
      assert s[d..][i - d] == s[i];
      WsEndSuffix(s, d, i + 1);
    }
  }

  /** The last newline in a range depends only on the text from `d` on. */
  lemma {:induction false} LastNewlineSuffix(s: string, d: nat, lo: nat, hi: nat)
    requires d <= lo <= hi <= |s|
    ensures LastNewline(s, lo, hi).Some? <==> LastNewline(s[d..], lo - d, hi - d).Some?
    ensures LastNewline(s, lo, hi).Some? ==>
              LastNewline(s, lo, hi).value == d + LastNewline(s[d..], lo - d, hi - d).value
    decreases hi - lo
  {
    if lo < hi {
      assert s[d..][hi - 1 - d] == s[hi - 1];
      LastNewlineSuffix(s, d, lo, hi - 1);
    }
  }

  /** The last newline of `[lo, hi)` is the last one of `[mid, hi)`, if there is one, and
      otherwise the last one of `[lo, mid)`. */
  lemma {:induction false} LastNewlineSplit(s: string, lo: nat, mid: nat, hi: nat)
    requires lo <= mid <= hi <= |s|
    ensures LastNewline(s, lo, hi) ==
              if LastNewline(s, mid, hi).Some? then LastNewline(s, mid, hi) else LastNewline(s, lo, mid)
    decreases hi - mid
  {
    if mid < hi {
      LastNewlineSplit(s, lo, mid, hi - 1);
    }
  }

  /** A newline at `d` behind a leading newline and whitespace moves the resumption point
      by exactly `d`: the match runs to the same last newline either way. */
  lemma ResumeShift(s: string, d: nat)
    requires 1 <= d < |s| && s[0] == '\n' && s[d] == '\n' && AllWs(s[1..d])
    ensures ResumeAt(s) == d + ResumeAt(s[d..])
  {
    var t := s[d..];
    assert AllWs(s[1..d + 1]) by {
      var u := s[1..d + 1];
      forall m | 0 <= m < |u| ensures IsWs(u[m]) {
        if m < d - 1 {
          assert u[m] == s[1..d][m];
        }
      }
    }
    WsEndSkip(s, 1, d + 1);
    WsEndSuffix(s, d, d + 1);
    var e := WsEnd(s, 1);
    assert e == d + WsEnd(t, 1);
    LastNewlineSplit(s, 1, d + 1, e);
    LastNewlineSuffix(s, d, d + 1, e);
    assert LastNewline(s, 1, d + 1) == Some(d);
  }

  /** A newline, whitespace and a second newline are replaced as the second newline alone
      would be: the match extends over the whole run. */
  lemma DropBlankLinesStep(w: string, t: string)
    requires AllWs(w)
    ensures DropBlankLines("\n" + w + "\n" + t) == DropBlankLines("\n" + t)
  {
    NewlinesAround(w, t);
    DropBlankLinesSkip("\n" + w + "\n" + t, |w| + 1);
  }

  /** Where the pieces of a newline, `w`, a newline and `t` sit. */
  lemma NewlinesAround(w: string, t: string)
    requires AllWs(w)
    ensures var s := "\n" + w + "\n" + t;
      && 1 <= |w| + 1 < |s| && s[0] == '\n' && s[|w| + 1] == '\n'
      && AllWs(s[1..|w| + 1]) && s[|w| + 1..] == "\n" + t
  {
    var s := "\n" + w + "\n" + t;
    assert s[1..|w| + 1] == w;
  }

  /** The same, stated by position: a leading newline, whitespace, and a newline at `d`. */
  lemma DropBlankLinesSkip(s: string, d: nat)
    requires 1 <= d < |s| && s[0] == '\n' && s[d] == '\n' && AllWs(s[1..d])
    ensures DropBlankLines(s) == DropBlankLines(s[d..])
  {
    var t := s[d..];
    ResumeShift(s, d);
    DropBlankLinesAtNewline(s);
    DropBlankLinesAtNewline(t);
    assert s[ResumeAt(s)..] == t[ResumeAt(t)..];
  }

  /** Where the text in s[a..b] ends once trailing whitespace is dropped. */
  function TrimEndAt(s: string, a: nat, b: nat): (e: nat)
    requires a <= b <= |s|
    ensures a <= e <= b
    ensures AllWs(s[e..b])
    ensures e == a || !IsWs(s[e - 1])
    decreases b - a
  {
    if a < b && IsWs(s[b - 1]) then
      var e := TrimEndAt(s, a, b - 1);
      assert s[e..b] == s[e..b - 1] + [s[b - 1]];
      e
    else b
  }

  /** `.trim()`: the slice left after dropping whitespace at both ends. */
  function Trim(s: string): (r: string)
    ensures Trimmed(r)
  {
    var a := WsEnd(s, 0);
    s[a..TrimEndAt(s, a, |s|)]
  }

  /** `Trim` keeps a slice of its input and removes only whitespace around it; with
      `Trimmed`, that pins the result down. */
  lemma TrimSlice(s: string)
    ensures exists i, j :: 0 <= i <= j <= |s| && Trim(s) == s[i..j] && AllWs(s[..i]) && AllWs(s[j..])
  {
    var a := WsEnd(s, 0);
    var e := TrimEndAt(s, a, |s|);
    assert s[..a] == s[0..a] && s[e..] == s[e..|s|];
    assert Trim(s) == s[a..e];
  }

  /** `Trim` is the identity on a string with no whitespace at either end. */
  lemma TrimOfTrimmed(s: string)
    requires Trimmed(s)
    ensures Trim(s) == s
  {
  }

  /** A slice of a single-spaced string is single-spaced. */
  lemma SliceSingleSpaced(s: string, a: nat, b: nat)
    requires a <= b <= |s| && SingleSpaced(s)
    ensures SingleSpaced(s[a..b])
  {
    var r := s[a..b];
    forall k | 0 <= k < |r| ensures LoneWsAt(r, k) {
      assert LoneWsAt(s, a + k);
      assert r[k] == s[a + k];
      if k + 1 < |r| {
        assert r[k + 1] == s[a + k + 1];
      }
    }
  }

  /** Trimming drops only whitespace, so the visible characters stay. */
  lemma TrimVisible(c: string)
    ensures Visible(Trim(c)) == Visible(c)
  {
    var a := WsEnd(c, 0);
    var b := TrimEndAt(c, a, |c|);
    var pre, r, post := c[0..a], c[a..b], c[b..|c|];
    assert c == pre + r + post;
    VisibleAppend(pre + r, post);
    VisibleAppend(pre, r);
    VisibleOfWs(pre);
    VisibleOfWs(post);
  }

  /** Trimming single-spaced text yields normalized text with the same visible characters. */
  lemma TrimSingleSpaced(c: string)
    requires SingleSpaced(c)
    ensures Normalized(Trim(c))
    ensures Visible(Trim(c)) == Visible(c)
  {
    var a := WsEnd(c, 0);
    SliceSingleSpaced(c, a, TrimEndAt(c, a, |c|));
    TrimVisible(c);
  }

  /** What the three steps together guarantee. */
  lemma CleanSteps(s: string)
    ensures Normalized(Trim(DropBlankLines(CollapseWs(s))))
    ensures Visible(Trim(DropBlankLines(CollapseWs(s)))) == Visible(s)
  {
    var collapsed := CollapseWs(s);
    SingleSpacedShape(collapsed);
    DropBlankLinesNoNewline(collapsed);
    TrimSingleSpaced(collapsed);
  }

  /** The cleaned text handed to the model: `content.replace(..).replace(..).trim()`.
      It is the words of the input joined by single spaces, so it has the normalized shape
      and keeps every visible character, in order. */
  function CleanContent(s: string): (r: string)
    ensures r == JoinWords(Words(s))
    ensures Normalized(r)
    ensures Visible(r) == Visible(s)
  {
    CleanSteps(s);
    CleanStepsJoinWords(s);
    Trim(DropBlankLines(CollapseWs(s)))
  }

  /** The cleaned text contains no newline and no two consecutive spaces. */
  lemma CleanContentShape(s: string)
    ensures forall k :: 0 <= k < |CleanContent(s)| ==> CleanContent(s)[k] != '\n'
    ensures forall k :: 0 <= k < |CleanContent(s)| - 1 ==>
              !(CleanContent(s)[k] == ' ' && CleanContent(s)[k + 1] == ' ')
  {
    SingleSpacedShape(CleanContent(s));
  }

  /** The second replacement never has anything to do: after the first, no newline is left. */
  lemma BlankLineReplaceIsNoOp(s: string)
    ensures DropBlankLines(CollapseWs(s)) == CollapseWs(s)
  {
    SingleSpacedShape(CollapseWs(s));
    DropBlankLinesNoNewline(CollapseWs(s));
  }

  /** `CollapseWs` is the identity on single-spaced text. */
  lemma {:induction false} CollapseSingleSpaced(s: string)
    requires SingleSpaced(s)
    ensures CollapseWs(s) == s
    decreases |s|
  {
    if s != [] {
      assert LoneWsAt(s, 0);
      SliceSingleSpaced(s, 1, |s|);
      assert s[1..|s|] == s[1..];
      CollapseSingleSpaced(s[1..]);
      if IsWs(s[0]) {
        WsEndOfRun(s, 0, 1);
      }
      assert s == [s[0]] + s[1..];
    }
  }

  /** Cleaning leaves normalized text unchanged, so cleaning twice is cleaning once. */
  lemma CleanContentIdempotent(s: string)
    ensures forall t :: Normalized(t) ==> CleanContent(t) == t
    ensures CleanContent(CleanContent(s)) == CleanContent(s)
  {
    forall t | Normalized(t) ensures CleanContent(t) == t {
      CollapseSingleSpaced(t);
      BlankLineReplaceIsNoOp(t);
      TrimOfTrimmed(t);
    }
  }

  /* ---- Reference: the words of the text joined by single spaces ---- */

  /** A non-empty run of non-whitespace characters. */
  predicate IsWord(w: string) {
    w != [] && forall k :: 0 <= k < |w| ==> !IsWs(w[k])
  }

  /** The words of `s` (its maximal runs of non-whitespace characters), left to right. */
  function Words(s: string): (ws: seq<string>)
    ensures forall i :: 0 <= i < |ws| ==> IsWord(ws[i])
    decreases |s|
  {
    if s == [] then []
    else if IsWs(s[0]) then Words(s[WsEnd(s, 0)..])
    else
      var e := WordEnd(s, 0);
      [s[..e]] + Words(s[e..])
  }

  /** The words with one space between neighbours. */
  function JoinWords(ws: seq<string>): string
    decreases |ws|
  {
    if ws == [] then [] else if |ws| == 1 then ws[0] else ws[0] + " " + JoinWords(ws[1..])
  }

  lemma JoinWordsCons(w: string, ws: seq<string>)
    ensures JoinWords([w] + ws) == if ws == [] then w else w + " " + JoinWords(ws)
  {
    assert ([w] + ws)[1..] == ws;
  }

  /** Joined words have no whitespace at either end, and are empty only without words. */
  lemma {:induction false} JoinWordsTrimmed(ws: seq<string>)
    requires forall i :: 0 <= i < |ws| ==> IsWord(ws[i])
    ensures Trimmed(JoinWords(ws))
    ensures ws != [] ==> JoinWords(ws) != []
    decreases |ws|
  {
    if |ws| == 1 {
      assert IsWord(ws[0]);
    } else if |ws| > 1 {
      var tail := ws[1..];
      assert forall i :: 0 <= i < |tail| ==> tail[i] == ws[i + 1];
      JoinWordsTrimmed(tail);
      var w, j := ws[0], JoinWords(tail);
      assert IsWord(w);
      var r := w + " " + j;
      assert r[0] == w[0];
      assert r[|r| - 1] == j[|j| - 1];
    }
  }

  /** One step of `CollapseWs` on a text that starts with a non-whitespace character. */
  lemma CollapseWsCons(s: string)
    requires s != [] && !IsWs(s[0])
    ensures CollapseWs(s) == [s[0]] + CollapseWs(s[1..])
  {
  }

  /** Words without whitespace in front are kept as they are. */
  lemma {:induction false} CollapseWordPrefix(w: string, t: string)
    requires forall k :: 0 <= k < |w| ==> !IsWs(w[k])
    ensures CollapseWs(w + t) == w + CollapseWs(t)
    decreases |w|
  {
    if w == [] {
      assert w + t == t;
    } else {
      var s := w + t;
      assert s[0] == w[0];
      CollapseWsCons(s);
      var w' := w[1..];
      assert s[1..] == w' + t;
      assert forall k :: 0 <= k < |w'| ==> w'[k] == w[k + 1];
      CollapseWordPrefix(w', t);
      ConsConcat(w[0], w', CollapseWs(s[1..]), CollapseWs(t));
      assert w == [w[0]] + w';
    }
  }

  /** Consing onto a concatenation, with the operands kept opaque to the caller's terms. */
  lemma ConsConcat(c: char, w: string, x: string, y: string)
    requires x == w + y
    ensures [c] + x == ([c] + w) + y
  {
  }

  /** A whitespace run in front becomes one space. */
  lemma CollapseWsPrefix(w: string, t: string)
    requires w != [] && AllWs(w) && (t == [] || !IsWs(t[0]))
    ensures CollapseWs(w + t) == " " + CollapseWs(t)
  {
    var s := w + t;
    assert s[0..|w|] == w;
    if t != [] {
      assert s[|w|] == t[0];
    }
    WsEndOfRun(s, 0, |w|);
    assert s[|w|..] == t;
  }

  /** A non-empty text without words is all whitespace, so it ends in whitespace. */
  lemma NoWordsEndsWs(u: string)
    requires u != [] && Words(u) == []
    ensures IsWs(u[|u| - 1])
  {
    if IsWs(u[0]) {
      var a := WsEnd(u, 0);
      if a == |u| {
        assert u[|u| - 1] == u[0..a][|u| - 1];
      } else {
        assert false;
      }
    } else {
      assert false;
    }
  }

  /** The space `CollapseWs` leaves in front: one when the text starts with whitespace. */
  function Lead(s: string): string {
    if s != [] && IsWs(s[0]) then " " else ""
  }

  /** The space `CollapseWs` leaves behind: one when the text ends with whitespace that
      follows a word. */
  function Trail(s: string): string {
    if Words(s) != [] && IsWs(s[|s| - 1]) then " " else ""
  }

  /** Each whitespace run becomes one space and every word is kept: the collapsed text is the
      words joined by single spaces, with at most one space at either end. */
  lemma {:induction false} CollapseWords(s: string)
    ensures CollapseWs(s) == Lead(s) + JoinWords(Words(s)) + Trail(s)
    decreases |s|, 2
  {
    if s == [] {
    } else if IsWs(s[0]) {
      CollapseWordsFromWs(s);
    } else {
      CollapseWordsFromWord(s);
    }
  }

  /** `CollapseWords` for a text that starts with whitespace. */
  lemma {:induction false} CollapseWordsFromWs(s: string)
    requires s != [] && IsWs(s[0])
    ensures CollapseWs(s) == " " + JoinWords(Words(s)) + Trail(s)
    decreases |s|, 0
  {
    var a := WsEnd(s, 0);
    var t := s[a..];
    assert s == s[..a] + t;
    assert AllWs(s[..a]) by { assert s[..a] == s[0..a]; }
    CollapseWsPrefix(s[..a], t);
    assert Words(s) == Words(t);
    CollapseWords(t);
    assert Lead(t) == [];
    assert Trail(s) == Trail(t) by {
      if t != [] {
        assert s[|s| - 1] == t[|t| - 1];
      }
    }
    SpliceLead(CollapseWs(s), CollapseWs(t), JoinWords(Words(t)), Trail(t));
  }

  /** The sequence algebra behind `CollapseWordsFromWs`. */
  lemma SpliceLead(cs: string, ct: string, j: string, tr: string)
    requires cs == " " + ct && ct == [] + j + tr
    ensures cs == " " + j + tr
  {
  }

  /** `CollapseWords` for a text that starts with a word. */
  lemma {:induction false} CollapseWordsFromWord(s: string)
    requires s != [] && !IsWs(s[0])
    ensures CollapseWs(s) == JoinWords(Words(s)) + Trail(s)
    decreases |s|, 1
  {
    var e := WordEnd(s, 0);
    var w, t := s[..e], s[e..];
    assert s == w + t;
    CollapseWordPrefix(w, t);
    var ws := Words(t);
    assert Words(s) == [w] + ws;
    JoinWordsCons(w, ws);
    if t == [] {
      assert s[|s| - 1] == w[|w| - 1];
      assert Trail(s) == [];
    } else {
      CollapseWordsAfterWord(s, w, t);
    }
  }

  /** The case of `CollapseWordsFromWord` where whitespace follows the first word. */
  lemma {:induction false} CollapseWordsAfterWord(s: string, w: string, t: string)
    requires s == w + t && w != [] && t != [] && IsWs(t[0])
    requires CollapseWs(s) == w + CollapseWs(t) && Words(s) == [w] + Words(t)
    ensures CollapseWs(s) == JoinWords(Words(s)) + Trail(s)
    decreases |s|, 0
  {
    var ws := Words(t);
    CollapseWordsFromWs(t);
    JoinWordsCons(w, ws);
    assert s[|s| - 1] == t[|t| - 1];
    if ws == [] {
      NoWordsEndsWs(t);
    }
    SpliceWords(w, CollapseWs(t), JoinWords(ws), Trail(t), ws == [], JoinWords(Words(s)), Trail(s));
  }

  /** The sequence algebra behind `CollapseWordsAfterWord`. */
  lemma SpliceWords(w: string, ct: string, jt: string, tt: string, none: bool, j: string,
                    tr: string)
    requires ct == " " + jt + tt
    requires none ==> jt == [] && tt == [] && j == w && tr == " "
    requires !none ==> j == w + " " + jt && tr == tt
    ensures w + ct == j + tr
  {
  }

  /** `TrimEndAt` stops right after the last non-whitespace character. */
  lemma {:induction false} TrimEndAtRun(s: string, a: nat, e: nat, b: nat)
    requires a < e <= b <= |s| && AllWs(s[e..b]) && !IsWs(s[e - 1])
    ensures TrimEndAt(s, a, b) == e
    decreases b - e
  {
    if e < b {
      assert s[b - 1] == s[e..b][b - 1 - e];
      assert s[e..b - 1] == s[e..b][..b - 1 - e];
      TrimEndAtRun(s, a, e, b - 1);
    }
  }

  /** Trimming removes exactly the whitespace around a trimmed string. */
  lemma TrimAround(p: string, x: string, q: string)
    requires AllWs(p) && AllWs(q) && Trimmed(x)
    ensures Trim(p + x + q) == x
  {
    var s := p + x + q;
    if x == [] {
      forall k | 0 <= k < |s| ensures IsWs(s[k]) {
        if k < |p| {
          assert s[k] == p[k];
        } else {
          assert s[k] == q[k - |p|];
        }
      }
      assert s[0..|s|] == s;
      WsEndOfRun(s, 0, |s|);
    } else {
      assert s[0..|p|] == p;
      assert s[|p|] == x[0];
      WsEndOfRun(s, 0, |p|);
      assert s[|p| + |x|..|s|] == q;
      assert s[|p| + |x| - 1] == x[|x| - 1];
      TrimEndAtRun(s, |p|, |p| + |x|, |s|);
      assert s[|p|..|p| + |x|] == x;
    }
  }

  /** The three steps give the words of the input joined by single spaces: every whitespace
      run between two words becomes one space, and the ends carry none. */
  lemma CleanStepsJoinWords(s: string)
    ensures Trim(DropBlankLines(CollapseWs(s))) == JoinWords(Words(s))
  {
    CollapseWords(s);
    BlankLineReplaceIsNoOp(s);
    JoinWordsTrimmed(Words(s));
    TrimAround(Lead(s), JoinWords(Words(s)), Trail(s));
  }

  /** Two words separated by a run of spaces stay two words, one space apart. */
  lemma CleanContentExample(s: string)
    requires s == "a  b"
    ensures CleanContent(s) == "a b"
  {
    var t := s[1..];
    assert t == "  b" && IsWs(t[0]) && IsWs(t[1]) && !IsWs(t[2]);
    WsEndOfRun(t, 0, 2);
    var u := t[2..];
    assert u == "b" && !IsWs(u[0]);
    assert WordEnd(u, 0) == 1;
    assert u[..1] == "b" && u[1..] == [];
    assert Words(u) == ["b"];
    assert Words(t) == ["b"];
    assert !IsWs(s[0]) && IsWs(s[1]);
    assert WordEnd(s, 0) == 1;
    assert s[..1] == "a";
    assert Words(s) == ["a", "b"];
    assert JoinWords(["a", "b"]) == "a" + " " + "b";
  }
}
